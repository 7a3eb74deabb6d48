/** The radial menu of js/circular-menu.js: a double click (or a double tap) on
    the page finds the followed icon, freezes it as a pinned clone with the
    original hidden, and opens a ring of item buttons around the clone; a
    pointer-down on the clone is meant to put the original back and close the
    menu. */
module CircularMenu {
  import opened Wrappers
  import opened Dom

  // ---------- Options ----------

  /** Lowest z-index of a frozen clone. */
  const CloneMinZ: int := 1000001
  const CloneClass := "cmv2-clone"
  const BackdropClass := "cmv2-backdrop"
  const RootClass := "cmv2-root"
  const ItemClass := "cmv2-item"
  /** The class the follow controller uses to fade out icons not picked. */
  const FollowHideClass := "__ifst_hide"

  /** A menu entry; an empty `label` or `icon` stands for an absent one. */
  datatype Item = Item(id: string, labelText: string, icon: string)

  /** The options the model tracks; `themeZ` is theme.zIndex. */
  datatype Options = Options(
    radius: real,
    gapAngleDeg: real,
    items: seq<Item>,
    doubleTapMs: real,
    doubleTapTolPx: real,
    themeZ: int)

  /** What a caller of init may give; `None` is a key it left out. */
  datatype Overrides = Overrides(
    radius: Option<real>,
    gapAngleDeg: Option<real>,
    items: Option<seq<Item>>,
    doubleTapMs: Option<real>,
    doubleTapTolPx: Option<real>,
    themeZ: Option<int>)

  const Defaults := Options(100.0, 0.0, [], 300.0, 40.0, 1000002)

  const NoOverrides := Overrides(None, None, None, None, None, None)

  /** init's shallow merge: every option the caller gives wins over the
      default, and every other one is the default (never the previous value). */
  function Merge(o: Overrides): (r: Options)
    ensures o.radius.Some? ==> r.radius == o.radius.value
    ensures o.radius.None? ==> r.radius == Defaults.radius
    ensures o.gapAngleDeg.Some? ==> r.gapAngleDeg == o.gapAngleDeg.value
    ensures o.gapAngleDeg.None? ==> r.gapAngleDeg == Defaults.gapAngleDeg
    ensures o.items.Some? ==> r.items == o.items.value
    ensures o.items.None? ==> r.items == []
    ensures o.doubleTapMs.Some? ==> r.doubleTapMs == o.doubleTapMs.value
    ensures o.doubleTapMs.None? ==> r.doubleTapMs == Defaults.doubleTapMs
    ensures o.doubleTapTolPx.Some? ==> r.doubleTapTolPx == o.doubleTapTolPx.value
    ensures o.doubleTapTolPx.None? ==> r.doubleTapTolPx == Defaults.doubleTapTolPx
    ensures o.themeZ.Some? ==> r.themeZ == o.themeZ.value
    ensures o.themeZ.None? ==> r.themeZ == Defaults.themeZ
    ensures o == NoOverrides ==> r == Defaults
  {
    Options(
      o.radius.GetOr(Defaults.radius),
      o.gapAngleDeg.GetOr(Defaults.gapAngleDeg),
      o.items.GetOr(Defaults.items),
      o.doubleTapMs.GetOr(Defaults.doubleTapMs),
      o.doubleTapTolPx.GetOr(Defaults.doubleTapTolPx),
      o.themeZ.GetOr(Defaults.themeZ))
  }

  // ---------- Finding the followed icon ----------

  /** An element matched by one of the icon selectors, with what its computed
      style says: position fixed, display not none, visibility not hidden,
      opacity above 0, and its z-index (`None` when it does not parse as an
      integer, such as `auto`), plus its bounding client rectangle. */
  datatype Candidate = Candidate(
    el: NodeId,
    fixed: bool,
    displayed: bool,
    visible: bool,
    opacityPositive: bool,
    zIndex: Option<int>,
    rect: Rect)

  predicate Qualifies(c: Candidate)
  {
    c.fixed && c.displayed && c.visible && c.opacityPositive
  }

  /** The sort key: an unparsable z-index counts as 0. */
  function ZOf(c: Candidate): int
  {
    c.zIndex.GetOr(0)
  }

  /** Index `i` is the head of the qualifying candidates stably sorted by
      decreasing z-index: it qualifies, no qualifying candidate is above it,
      and every earlier qualifying candidate is strictly below it. */
  ghost predicate IsTop(cs: seq<Candidate>, i: int)
  {
    && 0 <= i < |cs|
    && Qualifies(cs[i])
    && (forall j :: 0 <= j < |cs| && Qualifies(cs[j]) ==> ZOf(cs[j]) <= ZOf(cs[i]))
    && (forall j :: 0 <= j < i && Qualifies(cs[j]) ==> ZOf(cs[j]) < ZOf(cs[i]))
  }

  /** The position of the first qualifying candidate of greatest z-index. */
  function TopIndex(cs: seq<Candidate>): (r: Option<nat>)
    ensures r.Some? ==> r.value < |cs| && Qualifies(cs[r.value])
  {
    if |cs| == 0 then None
    else
      var best := TopIndex(cs[..|cs| - 1]);
      var last := cs[|cs| - 1];
      if !Qualifies(last) then best
      else if best.None? || ZOf(cs[best.value]) < ZOf(last) then Some(|cs| - 1)
      else best
  }

  /** getActiveIcon: the followed icon, if any candidate qualifies. */
  function ActiveIcon(cs: seq<Candidate>): Option<Candidate>
  {
    match TopIndex(cs)
    case None => None
    case Some(i) => Some(cs[i])
  }

  lemma {:induction false} TopIndexSound(cs: seq<Candidate>)
    ensures TopIndex(cs).Some? ==> IsTop(cs, TopIndex(cs).value)
    ensures TopIndex(cs).None? <==> forall j :: 0 <= j < |cs| ==> !Qualifies(cs[j])
  {
    if |cs| > 0 {
      var k := |cs| - 1;
      var p := cs[..k];
      TopIndexSound(p);
      assert forall j :: 0 <= j < k ==> p[j] == cs[j];
    }
  }

  /** The head of the stable sort is unique, so TopIndex finds it. */
  lemma TopIndexComplete(cs: seq<Candidate>, i: int)
    requires IsTop(cs, i)
    ensures TopIndex(cs) == Some(i)
  {
    TopIndexSound(cs);
    var t := TopIndex(cs).value;
    assert IsTop(cs, t);
    assert ZOf(cs[t]) == ZOf(cs[i]);
  }

  /** getActiveIcon finds nothing exactly when no candidate qualifies, and
      otherwise returns the head of the stable sort by decreasing z-index. */
  lemma ActiveIconIsTop(cs: seq<Candidate>)
    ensures ActiveIcon(cs).None? <==> forall j :: 0 <= j < |cs| ==> !Qualifies(cs[j])
    ensures forall i :: IsTop(cs, i) ==> ActiveIcon(cs) == Some(cs[i])
    ensures ActiveIcon(cs).Some? ==> exists i :: IsTop(cs, i) && ActiveIcon(cs) == Some(cs[i])
  {
    TopIndexSound(cs);
    forall i | IsTop(cs, i)
      ensures ActiveIcon(cs) == Some(cs[i])
    {
      TopIndexComplete(cs, i);
    }
  }

  // ---------- The frozen clone ----------

  function Max(a: int, b: int): int
  {
    if a < b then b else a
  }

  /** The clone's z-index as written: parseInt of a computed z-index that is
      not an integer (`auto`) gives NaN, and so does Math.max of it; `None`
      is that NaN. */
  function CloneZAsWritten(z: Option<int>): (r: Option<int>)
    ensures z.None? <==> r.None?
  {
    match z
    case None => None
    case Some(v) => Some(Max(CloneMinZ, v + 1))
  }

  /** The clone's z-index, reading an unparsable z-index as 0 as getActiveIcon
      does: at least CloneMinZ and above the original's. */
  function CloneZ(z: Option<int>): (r: int)
    ensures r >= CloneMinZ && r > z.GetOr(0)
    ensures z.Some? ==> CloneZAsWritten(z) == Some(r)
    ensures r == CloneMinZ || r == z.GetOr(0) + 1
  {
    Max(CloneMinZ, z.GetOr(0) + 1)
  }

  /** Where an element with inline style `s` shows its left edge: its inline
      `left`, moved by its inline translate transform (an inline property wins
      over any class rule). `None` when it has no inline pixel `left`. */
  function ShownLeft(s: Style): Option<real>
  {
    if "left" in s && s["left"].Px? then Some(s["left"].v + ShiftX(s)) else None
  }

  function ShownTop(s: Style): Option<real>
  {
    if "top" in s && s["top"].Px? then Some(s["top"].v + ShiftY(s)) else None
  }

  function ShiftX(s: Style): real
  {
    if "transform" in s && s["transform"].Translate? then s["transform"].dx as real else 0.0
  }

  function ShiftY(s: Style): real
  {
    if "transform" in s && s["transform"].Translate? then s["transform"].dy as real else 0.0
  }

  /** Whether an element with inline style `s` receives pointer events. */
  predicate HitTestable(s: Style)
  {
    !("pointerEvents" in s && s["pointerEvents"] == Str("none"))
  }

  /** The inline pixel box of the clone at rectangle `r`. */
  function CloneBox(s: Style, r: Rect): Style
  {
    s["left" := Px(r.left)]["top" := Px(r.top)]["width" := Px(r.width)]["height" := Px(r.height)]
  }

  /** The clone's inline style as written: the copied style with the pixel
      box, opacity removed, and the z-index set unless it came out NaN. */
  function CloneStyleAsWritten(s: Style, r: Rect, z: Option<int>): Style
  {
    var boxed := CloneBox(s, r) - {"opacity"};
    match CloneZAsWritten(z)
    case None => boxed
    case Some(v) => boxed["zIndex" := Int(v)]
  }

  /** A copied translate transform survives in the clone and moves it away
      from the rectangle it is pinned at (which already includes that
      translation), and a copied pointer-events: none keeps the clone from
      receiving the pointer-down that would reattach it. */
  lemma CloneAsWrittenKeepsFollowStyle(s: Style, r: Rect, z: Option<int>)
    ensures "transform" in s && s["transform"].Translate? ==>
      ShownLeft(CloneStyleAsWritten(s, r, z)) == Some(r.left + s["transform"].dx as real) &&
      ShownTop(CloneStyleAsWritten(s, r, z)) == Some(r.top + s["transform"].dy as real)
    ensures "pointerEvents" in s && s["pointerEvents"] == Str("none") ==>
      !HitTestable(CloneStyleAsWritten(s, r, z))
  {
  }

  /** A concrete case: a followed icon at rest 30 px right of where it was
      pinned, with an `auto` computed z-index. Its clone shows 30 px right of
      the rectangle, takes no pointer events and gets no z-index. */
  lemma CloneAsWrittenCounterexample()
    ensures var s := map["transform" := Translate(30, 0), "pointerEvents" := Str("none")];
      var r := Rect(100.0, 50.0, 40.0, 40.0);
      var c := CloneStyleAsWritten(s, r, None);
      ShownLeft(c) == Some(130.0) && ShownLeft(c) != Some(r.left) &&
      !HitTestable(c) && "zIndex" !in c
  {
    var s := map["transform" := Translate(30, 0), "pointerEvents" := Str("none")];
    var r := Rect(100.0, 50.0, 40.0, 40.0);
    var c := CloneStyleAsWritten(s, r, None);
    assert c["transform"] == Translate(30, 0);
    assert c["pointerEvents"] == Str("none");
  }

  /** The clone's inline style the model uses: as written, with the z-index
      of CloneZ and with the transform and pointer-events that the
      `.cmv2-clone` rule asks for set inline, where copied inline values
      cannot override them. */
  function CloneStyle(s: Style, r: Rect, z: Option<int>): (c: Style)
    ensures ShownLeft(c) == Some(r.left) && ShownTop(c) == Some(r.top)
    ensures "width" in c && c["width"] == Px(r.width) && "height" in c && c["height"] == Px(r.height)
    ensures HitTestable(c)
    ensures "zIndex" in c && c["zIndex"] == Int(CloneZ(z)) && "opacity" !in c
    ensures forall p :: p in s && p !in CloneProps ==> p in c && c[p] == s[p]
    ensures forall p :: p in c ==> p in s || p in CloneProps
  {
    (CloneBox(s, r) - {"opacity"})["zIndex" := Int(CloneZ(z))]["transform" := Str("none")]["pointerEvents" := Str("auto")]
  }

  /** The inline properties the clone sets or removes. */
  const CloneProps: set<string> := {"left", "top", "width", "height", "opacity", "zIndex", "transform", "pointerEvents"}

  /** The clone of element `n` frozen at candidate rectangle `r`: a copy of its
      tag, classes and attributes, tagged as a clone and no longer faded, with
      the clone's inline style. */
  function CloneOf(n: Node, r: Rect, z: Option<int>): Node
  {
    n.(kids := [], classes := n.classes + {CloneClass} - {FollowHideClass}, style := CloneStyle(n.style, r, z))
  }

  /** A copy of candidate `c`'s element styled as its clone, not yet in the tree. */
  method MakeClone(doc: Document, c: Candidate) returns (clone: NodeId)
    requires doc.Valid() && doc.Known(c.el)
    modifies doc`next, doc`nodes
    ensures doc.Valid()
    ensures clone == old(doc.next) && doc.next == clone + 1
    ensures Look(doc.nodes, clone) == CloneOf(Look(old(doc.nodes), c.el), c.rect, c.zIndex)
    ensures forall n: NodeId :: n != clone ==> Look(doc.nodes, n) == Look(old(doc.nodes), n)
  {
    clone := doc.CloneNode(c.el);
    doc.AddClass(clone, CloneClass);
    PlaceClone(doc, clone, c.rect);
    FinishClone(doc, clone, c.zIndex);
  }

  method PlaceClone(doc: Document, clone: NodeId, r: Rect)
    requires doc.Valid() && doc.Known(clone)
    modifies doc`nodes
    ensures doc.Valid()
    ensures Look(doc.nodes, clone) == Look(old(doc.nodes), clone).(style := CloneBox(Look(old(doc.nodes), clone).style, r))
    ensures forall n: NodeId :: n != clone ==> Look(doc.nodes, n) == Look(old(doc.nodes), n)
  {
    doc.SetStyle(clone, "left", Px(r.left));
    doc.SetStyle(clone, "top", Px(r.top));
    doc.SetStyle(clone, "width", Px(r.width));
    doc.SetStyle(clone, "height", Px(r.height));
  }

  method FinishClone(doc: Document, clone: NodeId, z: Option<int>)
    requires doc.Valid() && doc.Known(clone)
    modifies doc`nodes
    ensures doc.Valid()
    ensures Look(doc.nodes, clone) == Look(old(doc.nodes), clone).(
      classes := Look(old(doc.nodes), clone).classes - {FollowHideClass},
      style := (Look(old(doc.nodes), clone).style - {"opacity"})["zIndex" := Int(CloneZ(z))]["transform" := Str("none")]["pointerEvents" := Str("auto")])
    ensures forall n: NodeId :: n != clone ==> Look(doc.nodes, n) == Look(old(doc.nodes), n)
  {
    doc.RemoveClass(clone, FollowHideClass);
    doc.ClearStyle(clone, "opacity");
    doc.SetStyle(clone, "zIndex", Int(CloneZ(z)));
    doc.SetStyle(clone, "transform", Str("none"));
    doc.SetStyle(clone, "pointerEvents", Str("auto"));
  }

  // ---------- The ring of buttons ----------

  /** The part of a full turn the ring spans once the gap is cut out. */
  function Span(gapDeg: real): real
  {
    1.0 - gapDeg / 360.0
  }

  /** The angle of button `i` of `n`, in turns (a quarter turn is 90 degrees,
      clockwise on screen since y grows downwards): the arc starts half a span
      before straight up, and each button sits in the middle of its share. */
  function ItemTurn(i: int, n: nat, gapDeg: real): real
    requires n > 0
  {
    -0.25 - Span(gapDeg) / 2.0 + (i as real + 0.5) * (Span(gapDeg) / n as real)
  }

  /** Neighbouring buttons are one share of the span apart. */
  lemma ItemTurnSpacing(i: int, n: nat, gapDeg: real)
    requires n > 0
    ensures ItemTurn(i + 1, n, gapDeg) - ItemTurn(i, n, gapDeg) == Span(gapDeg) / n as real
  {
    var q := Span(gapDeg) / n as real;
    assert (i as real + 1.5) * q == (i as real + 0.5) * q + q;
  }

  /** The ring is symmetric about straight up: button i and button n-1-i sit
      at mirrored angles. */
  lemma ItemTurnMirror(i: int, n: nat, gapDeg: real)
    requires n > 0
    ensures ItemTurn(i, n, gapDeg) + ItemTurn(n - 1 - i, n, gapDeg) == -0.5
  {
    var s := Span(gapDeg);
    var q := s / n as real;
    assert n as real * q == s;
    assert ItemTurn(i, n, gapDeg) == -0.25 - s / 2.0 + (i as real + 0.5) * q;
    assert ItemTurn(n - 1 - i, n, gapDeg) == -0.25 - s / 2.0 + ((n - 1 - i) as real + 0.5) * q;
    assert (i as real + 0.5) * q + ((n - 1 - i) as real + 0.5) * q == n as real * q;
  }

  /** With a gap below a full turn every button lies strictly inside the arc
      that leaves the gap centred straight down. */
  lemma ItemTurnInsideArc(i: int, n: nat, gapDeg: real)
    requires 0 <= i < n && gapDeg < 360.0
    ensures -0.25 - Span(gapDeg) / 2.0 < ItemTurn(i, n, gapDeg) < -0.25 + Span(gapDeg) / 2.0
  {
    var s := Span(gapDeg);
    var q := s / n as real;
    var x := (i as real + 0.5) * q;
    assert q > 0.0;
    assert x > 0.0;
    var rest := n as real - (i as real + 0.5);
    assert rest > 0.0;
    assert rest * q > 0.0;
    assert x + rest * q == n as real * q;
    assert n as real * q == s;
    assert ItemTurn(i, n, gapDeg) == -0.25 - s / 2.0 + x;
  }

  /** Four buttons and no gap: up-left, up-right, down-right, down-left. */
  lemma FourItemsNoGap()
    ensures ItemTurn(0, 4, 0.0) == -0.625 && ItemTurn(1, 4, 0.0) == -0.375
    ensures ItemTurn(2, 4, 0.0) == -0.125 && ItemTurn(3, 4, 0.0) == 0.125
  {
  }

  /** Style `s` with the pixel position of a point at `turn` on the circle of
      `radius` around (cx, cy). */
  function Placed(s: Style, cx: real, cy: real, radius: real, turn: real): Style
  {
    s["left" := CosPx(cx, radius, turn)]["top" := SinPx(cy, radius, turn)]
  }

  predicate Distinct(s: seq<NodeId>)
  {
    forall j, k :: 0 <= j < k < |s| ==> s[j] != s[k]
  }

  /** polarPlace: button i is placed at ItemTurn(i) on the ring; nothing but
      those buttons' positions changes. */
  method PolarPlace(doc: Document, cx: real, cy: real, radius: real, buttons: seq<NodeId>, gapDeg: real)
    requires doc.Valid() && Distinct(buttons)
    requires forall j :: 0 <= j < |buttons| ==> doc.Known(buttons[j])
    modifies doc`nodes
    ensures doc.Valid()
    ensures forall j :: 0 <= j < |buttons| ==> Look(doc.nodes, buttons[j]) == Look(old(doc.nodes), buttons[j]).(style := Placed(Look(old(doc.nodes), buttons[j]).style, cx, cy, radius, ItemTurn(j, |buttons|, gapDeg)))
    ensures forall m: NodeId :: m !in buttons ==> Look(doc.nodes, m) == Look(old(doc.nodes), m)
    ensures forall m: NodeId :: Shape(Look(doc.nodes, m)) == Shape(Look(old(doc.nodes), m))
  {
    var n := |buttons|;
    if n == 0 {
      return;
    }
    var i := 0;
    while i < n
      invariant 0 <= i <= n && doc.Valid()
      invariant forall j :: 0 <= j < i ==> Look(doc.nodes, buttons[j]) == Look(old(doc.nodes), buttons[j]).(style := Placed(Look(old(doc.nodes), buttons[j]).style, cx, cy, radius, ItemTurn(j, n, gapDeg)))
      invariant forall j :: i <= j < n ==> Look(doc.nodes, buttons[j]) == Look(old(doc.nodes), buttons[j])
      invariant forall m: NodeId :: m !in buttons ==> Look(doc.nodes, m) == Look(old(doc.nodes), m)
      invariant forall m: NodeId :: Shape(Look(doc.nodes, m)) == Shape(Look(old(doc.nodes), m))
    {
      PlaceOne(doc, buttons[i], cx, cy, radius, ItemTurn(i, n, gapDeg));
      i := i + 1;
    }
  }

  /** One button of polarPlace: its pixel position at `turn` on the ring. */
  method PlaceOne(doc: Document, b: NodeId, cx: real, cy: real, radius: real, turn: real)
    requires doc.Valid() && doc.Known(b)
    modifies doc`nodes
    ensures doc.Valid()
    ensures Look(doc.nodes, b) == Look(old(doc.nodes), b).(style := Placed(Look(old(doc.nodes), b).style, cx, cy, radius, turn))
    ensures forall m :: m != b ==> Look(doc.nodes, m) == Look(old(doc.nodes), m)
  {
    doc.SetStyle(b, "left", CosPx(cx, radius, turn));
    doc.SetStyle(b, "top", SinPx(cy, radius, turn));
  }

  function KidCount(it: Item): nat
  {
    (if it.icon != "" then 1 else 0) + (if it.labelText != "" then 1 else 0)
  }

  /** The image's alternative text: the label, else the id. */
  function AltText(it: Item): string
  {
    if it.labelText != "" then it.labelText else it.id
  }

  /** The icon image of an item's button. */
  function ImageNode(it: Item): Node
  {
    Blank.(tag := "img", attrs := map["alt" := AltText(it), "src" := it.icon])
  }

  /** The label span of an item's button. */
  function LabelNode(it: Item): Node
  {
    Blank.(tag := "span", attrs := map["textContent" := it.labelText])
  }

  /** A fresh button, before its children. */
  const ButtonNode := Blank.(tag := "button", classes := {ItemClass}, attrs := map["type" := "button"])

  /** Button `b` shows item `it`, using ids from `b` up to `hi` only: a
      `cmv2-item` button of type button whose children are the icon image (when
      there is an icon) followed by the label span (when there is a label). */
  ghost predicate ButtonShows(nodes: map<NodeId, Node>, b: NodeId, it: Item, hi: nat)
  {
    var nd := Look(nodes, b);
    && b < hi
    && nd.tag == "button" && nd.classes == {ItemClass} && nd.attrs == map["type" := "button"]
    && |nd.kids| == KidCount(it)
    && (forall k :: 0 <= k < |nd.kids| ==> b < nd.kids[k] < hi)
    && (it.icon != "" ==> Shape(Look(nodes, nd.kids[0])) == ImageNode(it))
    && (it.labelText != "" ==> Shape(Look(nodes, nd.kids[|nd.kids| - 1])) == LabelNode(it))
  }

  /** What a button shows depends only on the ids it uses, and not on its own
      inline style. */
  lemma ButtonShowsFrame(m1: map<NodeId, Node>, m2: map<NodeId, Node>, b: NodeId, it: Item, hi1: nat, hi2: nat)
    requires ButtonShows(m1, b, it, hi1) && hi1 <= hi2
    requires forall n: NodeId :: b <= n < hi1 ==> Shape(Look(m2, n)) == Shape(Look(m1, n))
    ensures ButtonShows(m2, b, it, hi2)
  {
    assert Shape(Look(m2, b)) == Shape(Look(m1, b));
    assert Look(m2, b).kids == Look(m1, b).kids;
  }

  /** The label text a button shows: its last child's text, if that is a span. */
  function ShownLabel(nodes: map<NodeId, Node>, b: NodeId): string
  {
    var kids := Look(nodes, b).kids;
    if |kids| == 0 then ""
    else
      var last := Look(nodes, kids[|kids| - 1]);
      if last.tag == "span" && "textContent" in last.attrs then last.attrs["textContent"] else ""
  }

  /** A button shows exactly its item's label. */
  lemma ButtonShowsLabel(nodes: map<NodeId, Node>, b: NodeId, it: Item, hi: nat)
    requires ButtonShows(nodes, b, it, hi)
    ensures ShownLabel(nodes, b) == it.labelText
  {
  }

  /** One button for `it`, not yet in the tree, built from fresh ids. */
  method BuildButton(doc: Document, it: Item) returns (b: NodeId)
    requires doc.Valid()
    modifies doc`next, doc`nodes
    ensures doc.Valid() && b == old(doc.next) && doc.next > b
    ensures ButtonShows(doc.nodes, b, it, doc.next) && Look(doc.nodes, b).style == map[]
    ensures forall n: NodeId :: n < old(doc.next) ==> Look(doc.nodes, n) == Look(old(doc.nodes), n)
  {
    b := NewButton(doc);
    var kids := AddParts(doc, b, it);
  }

  /** The children of an item's button: the icon image, if any, then the
      label span, if any. */
  method AddParts(doc: Document, b: NodeId, it: Item) returns (ghost kids: seq<NodeId>)
    requires doc.Valid() && doc.Known(b) && Look(doc.nodes, b) == ButtonNode
    modifies doc`next, doc`nodes
    ensures doc.Valid() && doc.next == old(doc.next) + KidCount(it)
    ensures |kids| == KidCount(it) && forall k :: 0 <= k < |kids| ==> old(doc.next) <= kids[k] < doc.next
    ensures Look(doc.nodes, b) == ButtonNode.(kids := kids)
    ensures it.icon != "" ==> Look(doc.nodes, kids[0]) == ImageNode(it)
    ensures it.labelText != "" ==> Look(doc.nodes, kids[|kids| - 1]) == LabelNode(it)
    ensures forall n: NodeId :: n < old(doc.next) && n != b ==> Look(doc.nodes, n) == Look(old(doc.nodes), n)
  {
    kids := [];
    if it.icon != "" {
      var img := AddImage(doc, b, it);
      kids := [img];
    }
    if it.labelText != "" {
      var span := AddLabel(doc, b, it);
      kids := kids + [span];
    }
  }

  /** document.createElement('button') with its type and class. */
  method NewButton(doc: Document) returns (b: NodeId)
    requires doc.Valid()
    modifies doc`next, doc`nodes
    ensures doc.Valid() && b == old(doc.next) && doc.next == b + 1
    ensures Look(doc.nodes, b) == ButtonNode
    ensures forall m :: m != b ==> Look(doc.nodes, m) == Look(old(doc.nodes), m)
  {
    b := doc.CreateElement("button");
    doc.SetAttr(b, "type", "button");
    doc.SetClassName(b, ItemClass);
  }

  /** The icon image: a fresh img child of `b`. */
  method AddImage(doc: Document, b: NodeId, it: Item) returns (img: NodeId)
    requires doc.Valid() && doc.Known(b)
    modifies doc`next, doc`nodes
    ensures doc.Valid() && img == old(doc.next) && doc.next == img + 1
    ensures Look(doc.nodes, img) == ImageNode(it)
    ensures Look(doc.nodes, b) == Look(old(doc.nodes), b).(kids := Look(old(doc.nodes), b).kids + [img])
    ensures forall m :: m != img && m != b ==> Look(doc.nodes, m) == Look(old(doc.nodes), m)
  {
    img := doc.CreateElement("img");
    doc.SetAttr(img, "alt", AltText(it));
    doc.SetAttr(img, "src", it.icon);
    doc.AppendChild(b, img);
  }

  /** The label: a fresh span child of `b`. */
  method AddLabel(doc: Document, b: NodeId, it: Item) returns (span: NodeId)
    requires doc.Valid() && doc.Known(b)
    modifies doc`next, doc`nodes
    ensures doc.Valid() && span == old(doc.next) && doc.next == span + 1
    ensures Look(doc.nodes, span) == LabelNode(it)
    ensures Look(doc.nodes, b) == Look(old(doc.nodes), b).(kids := Look(old(doc.nodes), b).kids + [span])
    ensures forall m :: m != span && m != b ==> Look(doc.nodes, m) == Look(old(doc.nodes), m)
  {
    span := doc.CreateElement("span");
    doc.SetAttr(span, "textContent", it.labelText);
    doc.AppendChild(b, span);
  }

  predicate Ascending(s: seq<NodeId>)
  {
    forall j, k :: 0 <= j < k < |s| ==> s[j] < s[k]
  }

  /** items.map: one fresh button per item, in item order, each appended to
      `root`. */
  method BuildButtons(doc: Document, root: NodeId, items: seq<Item>) returns (buttons: seq<NodeId>)
    requires doc.Valid() && doc.Known(root)
    modifies doc`next, doc`nodes
    ensures doc.Valid() && doc.next >= old(doc.next)
    ensures |buttons| == |items| && Ascending(buttons)
    ensures forall j :: 0 <= j < |buttons| ==> old(doc.next) <= buttons[j] < doc.next
    ensures AllShown(doc.nodes, buttons, items, doc.next)
    ensures forall j :: 0 <= j < |buttons| ==> Look(doc.nodes, buttons[j]).style == map[]
    ensures Look(doc.nodes, root) == Look(old(doc.nodes), root).(kids := Look(old(doc.nodes), root).kids + buttons)
    ensures forall n: NodeId :: n < old(doc.next) && n != root ==> Look(doc.nodes, n) == Look(old(doc.nodes), n)
  {
    buttons := [];
    var i := 0;
    while i < |items|
      invariant 0 <= i <= |items| && |buttons| == i
      invariant doc.Valid() && doc.next >= old(doc.next)
      invariant Ascending(buttons)
      invariant forall j :: 0 <= j < i ==> old(doc.next) <= buttons[j] < doc.next
      invariant AllShown(doc.nodes, buttons, items[..i], doc.next)
      invariant forall j :: 0 <= j < i ==> Look(doc.nodes, buttons[j]).style == map[]
      invariant Look(doc.nodes, root) == Look(old(doc.nodes), root).(kids := Look(old(doc.nodes), root).kids + buttons)
      invariant forall n: NodeId :: n < old(doc.next) && n != root ==> Look(doc.nodes, n) == Look(old(doc.nodes), n)
    {
      ghost var before := doc.nodes;
      var b := AppendButton(doc, root, items[i]);
      assert items[..i + 1] == items[..i] + [items[i]];
      AllShownGrow(before, doc.nodes, buttons, items[..i], b, items[i], old(doc.next), doc.next, root);
      buttons := buttons + [b];
      i := i + 1;
    }
    assert items[..i] == items;
  }

  /** One button for `it`, appended to `root`. */
  method AppendButton(doc: Document, root: NodeId, it: Item) returns (b: NodeId)
    requires doc.Valid() && doc.Known(root)
    modifies doc`next, doc`nodes
    ensures doc.Valid() && b == old(doc.next) && doc.next > b
    ensures ButtonShows(doc.nodes, b, it, doc.next) && Look(doc.nodes, b).style == map[]
    ensures Look(doc.nodes, root) == Look(old(doc.nodes), root).(kids := Look(old(doc.nodes), root).kids + [b])
    ensures forall n: NodeId :: n < old(doc.next) && n != root ==> Look(doc.nodes, n) == Look(old(doc.nodes), n)
  {
    b := BuildButton(doc, it);
    ghost var built := doc.nodes;
    doc.AppendChild(root, b);
    ButtonShowsFrame(built, doc.nodes, b, it, doc.next, doc.next);
  }

  /** Button j of `buttons` shows item j of `items`, all within ids below `hi`. */
  ghost predicate AllShown(nodes: map<NodeId, Node>, buttons: seq<NodeId>, items: seq<Item>, hi: nat)
  {
    |buttons| == |items| && forall j :: 0 <= j < |buttons| ==> ButtonShows(nodes, buttons[j], items[j], hi)
  }

  lemma AllShownSnoc(nodes: map<NodeId, Node>, buttons: seq<NodeId>, items: seq<Item>, b: NodeId, it: Item, hi: nat)
    requires AllShown(nodes, buttons, items, hi) && ButtonShows(nodes, b, it, hi)
    ensures AllShown(nodes, buttons + [b], items + [it], hi)
  {
  }

  /** A loop step of items.map: the buttons built so far, from ids in [lo, b),
      keep showing their items, unstyled, once button `b` (built from ids in
      [b, hi)) is appended to a root below `lo`. */
  lemma AllShownGrow(m1: map<NodeId, Node>, m2: map<NodeId, Node>, buttons: seq<NodeId>, items: seq<Item>, b: NodeId, it: Item, lo: nat, hi: nat, root: NodeId)
    requires AllShown(m1, buttons, items, b) && lo <= b < hi && root < lo
    requires Ascending(buttons) && forall j :: 0 <= j < |buttons| ==> lo <= buttons[j] < b
    requires forall j :: 0 <= j < |buttons| ==> Look(m1, buttons[j]).style == map[]
    requires forall n: NodeId :: n < b && n != root ==> Look(m2, n) == Look(m1, n)
    requires ButtonShows(m2, b, it, hi) && Look(m2, b).style == map[]
    ensures AllShown(m2, buttons + [b], items + [it], hi)
    ensures Ascending(buttons + [b]) && forall j :: 0 <= j < |buttons + [b]| ==> lo <= (buttons + [b])[j] < hi
    ensures forall j :: 0 <= j < |buttons + [b]| ==> Look(m2, (buttons + [b])[j]).style == map[]
  {
    AllShownFrame(m1, m2, buttons, items, lo, b, hi);
    AllShownSnoc(m2, buttons, items, b, it, hi);
  }

  /** Buttons built from ids in [lo, hi1) keep showing their items in a node
      map that agrees with the old one on those ids, apart from styles. */
  lemma AllShownFrame(m1: map<NodeId, Node>, m2: map<NodeId, Node>, buttons: seq<NodeId>, items: seq<Item>, lo: nat, hi1: nat, hi2: nat)
    requires AllShown(m1, buttons, items, hi1) && hi1 <= hi2
    requires forall j :: 0 <= j < |buttons| ==> lo <= buttons[j]
    requires forall n: NodeId :: lo <= n < hi1 ==> Shape(Look(m2, n)) == Shape(Look(m1, n))
    ensures AllShown(m2, buttons, items, hi2)
  {
    forall j | 0 <= j < |buttons|
      ensures ButtonShows(m2, buttons[j], items[j], hi2)
    {
      ButtonShowsFrame(m1, m2, buttons[j], items[j], hi1, hi2);
    }
  }

  /** The ids of an open menu. */
  datatype MenuNodes = MenuNodes(root: NodeId, items: seq<NodeId>, backdrop: NodeId)

  /** The identity of a frozen icon: the hidden original and its clone. */
  datatype Frozen = Frozen(origEl: NodeId, cloneEl: NodeId)

  /** The body children a menu adds. */
  function MenuLayer(m: Option<MenuNodes>): set<NodeId>
  {
    match m
    case None => {}
    case Some(mn) => {mn.root, mn.backdrop}
  }

  /** Menu `m`, built from ids in [lo, hi), holds `items` at z-index
      `themeZ`: a backdrop and a root in the body, the root holding one button
      per item in item order. */
  ghost predicate MenuTree(nodes: map<NodeId, Node>, body: set<NodeId>, m: MenuNodes, items: seq<Item>, themeZ: int, lo: nat, hi: nat)
  {
    && lo <= m.backdrop && m.root == m.backdrop + 1
    && m.backdrop in body && m.root in body
    && Look(nodes, m.backdrop) == Blank.(tag := "div", classes := {BackdropClass}, style := map["zIndex" := Int(themeZ - 1), "pointerEvents" := Str("auto")])
    && Look(nodes, m.root) == Blank.(tag := "div", classes := {RootClass}, style := map["zIndex" := Int(themeZ)], kids := m.items)
    && Ascending(m.items) && AllShown(nodes, m.items, items, hi)
    && (forall j :: 0 <= j < |m.items| ==> m.root < m.items[j] < hi)
  }

  /** Menu `m` shows `items` around (cx, cy) with the radius, gap and z-index
      of `o`: the menu tree, with button i at ItemTurn(i) on the ring. */
  ghost predicate MenuShown(nodes: map<NodeId, Node>, body: set<NodeId>, m: MenuNodes, items: seq<Item>, cx: real, cy: real, o: Options, lo: nat, hi: nat)
  {
    && MenuTree(nodes, body, m, items, o.themeZ, lo, hi)
    && (forall j :: 0 <= j < |m.items| ==> Look(nodes, m.items[j]).style == Placed(map[], cx, cy, o.radius, ItemTurn(j, |items|, o.gapAngleDeg)))
  }

  /** The menu tree survives any change of the buttons' styles. */
  lemma MenuTreeFrame(m1: map<NodeId, Node>, m2: map<NodeId, Node>, body: set<NodeId>, m: MenuNodes, items: seq<Item>, themeZ: int, lo: nat, hi: nat)
    requires MenuTree(m1, body, m, items, themeZ, lo, hi)
    requires Look(m2, m.root) == Look(m1, m.root) && Look(m2, m.backdrop) == Look(m1, m.backdrop)
    requires forall n: NodeId :: Shape(Look(m2, n)) == Shape(Look(m1, n))
    ensures MenuTree(m2, body, m, items, themeZ, lo, hi)
  {
    AllShownFrame(m1, m2, m.items, items, m.root + 1, hi, hi);
  }

  /** The menu's elements, with unstyled buttons, added to the body. */
  method BuildTree(doc: Document, items: seq<Item>, themeZ: int) returns (m: MenuNodes)
    requires doc.Valid()
    modifies doc`next, doc`nodes, doc`body
    ensures doc.Valid() && doc.next >= old(doc.next)
    ensures MenuTree(doc.nodes, doc.body, m, items, themeZ, old(doc.next), doc.next)
    ensures forall j :: 0 <= j < |m.items| ==> Look(doc.nodes, m.items[j]).style == map[]
    ensures doc.body == old(doc.body) + {m.root, m.backdrop}
    ensures forall n: NodeId :: n < old(doc.next) ==> Look(doc.nodes, n) == Look(old(doc.nodes), n)
  {
    var backdrop, root := BuildLayers(doc, themeZ);
    var buttons := BuildButtons(doc, root, items);
    doc.AppendToBody(backdrop);
    doc.AppendToBody(root);
    m := MenuNodes(root, buttons, backdrop);
  }

  /** An open menu's buttons show the items' labels, in item order. */
  lemma MenuShowsLabels(nodes: map<NodeId, Node>, body: set<NodeId>, m: MenuNodes, items: seq<Item>, cx: real, cy: real, o: Options, lo: nat, hi: nat)
    requires MenuShown(nodes, body, m, items, cx, cy, o, lo, hi)
    ensures |Look(nodes, m.root).kids| == |items|
    ensures forall j :: 0 <= j < |items| ==> ShownLabel(nodes, Look(nodes, m.root).kids[j]) == items[j].labelText
  {
    forall j | 0 <= j < |items|
      ensures ShownLabel(nodes, Look(nodes, m.root).kids[j]) == items[j].labelText
    {
      ButtonShowsLabel(nodes, m.items[j], items[j], hi);
    }
  }

  /** The backdrop and the root, with their classes and z-indexes; not yet in
      the tree. */
  method BuildLayers(doc: Document, themeZ: int) returns (backdrop: NodeId, root: NodeId)
    requires doc.Valid()
    modifies doc`next, doc`nodes
    ensures doc.Valid()
    ensures backdrop == old(doc.next) && root == backdrop + 1 && doc.next == root + 1
    ensures Look(doc.nodes, backdrop) == Blank.(tag := "div", classes := {BackdropClass}, style := map["zIndex" := Int(themeZ - 1), "pointerEvents" := Str("auto")])
    ensures Look(doc.nodes, root) == Blank.(tag := "div", classes := {RootClass}, style := map["zIndex" := Int(themeZ)])
    ensures forall n: NodeId :: n < old(doc.next) ==> Look(doc.nodes, n) == Look(old(doc.nodes), n)
  {
    backdrop := doc.CreateElement("div");
    doc.SetClassName(backdrop, BackdropClass);
    doc.SetStyle(backdrop, "zIndex", Int(themeZ - 1));
    doc.SetStyle(backdrop, "pointerEvents", Str("auto"));
    root := doc.CreateElement("div");
    doc.SetClassName(root, RootClass);
    doc.SetStyle(root, "zIndex", Int(themeZ));
  }

  /** The last double-tap candidate: its time (ms) and client position. */
  datatype Tap = Tap(t: real, x: real, y: real)

  function Abs(v: real): real
  {
    if v < 0.0 then -v else v
  }

  /** A touch at time `now` and (x, y) is the second tap of a double tap. */
  predicate IsDoubleTap(last: Tap, now: real, x: real, y: real, o: Options)
  {
    now - last.t <= o.doubleTapMs && Abs(x - last.x) <= o.doubleTapTolPx && Abs(y - last.y) <= o.doubleTapTolPx
  }

  function Center(r: Rect): Point
  {
    Point(r.left + r.width / 2.0, r.top + r.height / 2.0)
  }

  /** The `state` record of the menu controller. */
  class Controller {
    const doc: Document
    var opts: Options
    var lastTap: Tap
    var detached: bool
    var frozen: Option<Frozen>
    var menu: Option<MenuNodes>
    /** The viewport rectangle the clone occupies (the rectangle it was
        pinned at); the default anchor is its centre. */
    var cloneRect: Rect

    /** Everything but the tie between an open menu and a frozen icon. */
    ghost predicate Paired()
      reads this, doc
    {
      && doc.Valid()
      && (detached <==> frozen.Some?)
      && (frozen.Some? ==> doc.Known(frozen.value.origEl) && doc.Known(frozen.value.cloneEl) && frozen.value.origEl != frozen.value.cloneEl)
    }

    ghost predicate Valid()
      reads this, doc
    {
      Paired() && (menu.Some? ==> frozen.Some?)
    }

    /** The state before init: the default options, no tap seen, nothing
        frozen, no menu. */
    constructor (doc: Document)
      requires doc.Valid()
      ensures Valid() && this.doc == doc
      ensures opts == Defaults && lastTap == Tap(0.0, 0.0, 0.0)
      ensures !detached && frozen.None? && menu.None?
    {
      this.doc := doc;
      opts := Defaults;
      lastTap := Tap(0.0, 0.0, 0.0);
      detached := false;
      frozen := None;
      menu := None;
      cloneRect := Rect(0.0, 0.0, 0.0, 0.0);
    }

    /** init's option merge: the options become the defaults overridden by
        what the caller gives. */
    method Init(o: Overrides)
      requires Valid()
      modifies this`opts
      ensures Valid() && opts == Merge(o)
    {
      opts := Merge(o);
    }

    /** isOpen. */
    function IsOpen(): (r: bool)
      reads this, doc
      requires Valid()
      ensures r ==> detached && frozen.Some?
    {
      menu.Some?
    }

    /** getState: whether an icon is frozen, and which. */
    function GetState(): (r: (bool, Option<Frozen>))
      reads this, doc
      requires Valid()
      ensures r.0 <==> r.1.Some?
      ensures r.1 == frozen
    {
      (detached, frozen)
    }

    /** closeMenu: the menu's backdrop and root leave the body, and no menu is
        open; with no menu open nothing changes. */
    method CloseMenu()
      requires Paired()
      modifies this`menu, doc`body
      ensures Valid() && menu.None?
      ensures doc.body == old(doc.body) - MenuLayer(old(menu))
      ensures old(menu).None? ==> doc.body == old(doc.body)
    {
      if menu.None? {
        return;
      }
      doc.RemoveFromBody(menu.value.root);
      doc.RemoveFromBody(menu.value.backdrop);
      menu := None;
    }

    /** freezeIcon: with no element, nothing happens. Otherwise the element's
        clone is added to the body at the element's rectangle, above it, and
        the element is hidden; the controller records both as frozen. */
    method FreezeIcon(el: Option<Candidate>) returns (f: Option<Frozen>)
      requires Valid() && !detached
      requires el.Some? ==> doc.Known(el.value.el)
      modifies this`detached, this`frozen, this`cloneRect, doc`next, doc`nodes, doc`body
      ensures Valid()
      ensures el.None? ==> f.None? && !detached && frozen.None? && cloneRect == old(cloneRect)
      ensures el.None? ==> doc.next == old(doc.next) && doc.nodes == old(doc.nodes) && doc.body == old(doc.body)
      ensures el.Some? ==> f == Some(Frozen(el.value.el, old(doc.next))) && frozen == f && detached
      ensures el.Some? ==> cloneRect == el.value.rect && doc.next == old(doc.next) + 1
      ensures el.Some? ==> doc.body == old(doc.body) + {old(doc.next)}
      ensures el.Some? ==> Look(doc.nodes, old(doc.next)) == CloneOf(Look(old(doc.nodes), el.value.el), el.value.rect, el.value.zIndex)
      ensures el.Some? ==> Look(doc.nodes, el.value.el) == Look(old(doc.nodes), el.value.el).(style := Look(old(doc.nodes), el.value.el).style["visibility" := Str("hidden")])
      ensures el.Some? ==> forall n: NodeId :: n != el.value.el && n != old(doc.next) ==> Look(doc.nodes, n) == Look(old(doc.nodes), n)
    {
      if el.None? {
        return None;
      }
      var c := el.value;
      var clone := MakeClone(doc, c);
      doc.AppendToBody(clone);
      doc.SetStyle(c.el, "visibility", Str("hidden"));
      detached := true;
      frozen := Some(Frozen(c.el, clone));
      cloneRect := c.rect;
      f := frozen;
    }

    /** reattach: with nothing frozen, nothing happens. Otherwise the original
        is shown again, the clone leaves the body, nothing is frozen any more and
        the menu is closed. */
    method Reattach()
      requires Valid()
      modifies this`frozen, this`detached, this`menu, doc`nodes, doc`body
      ensures Valid() && !detached && frozen.None? && menu.None?
      ensures old(frozen).None? ==> doc.nodes == old(doc.nodes) && doc.body == old(doc.body)
      ensures old(frozen).Some? ==> doc.body == old(doc.body) - {old(frozen).value.cloneEl} - MenuLayer(old(menu))
      ensures old(frozen).Some? ==> Look(doc.nodes, old(frozen).value.origEl) == Look(old(doc.nodes), old(frozen).value.origEl).(style := Look(old(doc.nodes), old(frozen).value.origEl).style - {"visibility"})
      ensures old(frozen).Some? ==> forall n: NodeId :: n != old(frozen).value.origEl ==> Look(doc.nodes, n) == Look(old(doc.nodes), n)
    {
      if frozen.None? {
        return;
      }
      var f := frozen.value;
      doc.ClearStyle(f.origEl, "visibility");
      doc.RemoveFromBody(f.cloneEl);
      frozen := None;
      detached := false;
      CloseMenu();
    }

    /** buildMenu: a fresh menu showing `items` around (cx, cy) is added to the
        body; nodes that existed before are left as they were. */
    method BuildMenu(items: seq<Item>, cx: real, cy: real)
      requires Valid() && frozen.Some?
      modifies this`menu, doc`next, doc`nodes, doc`body
      ensures Valid() && menu.Some?
      ensures MenuShown(doc.nodes, doc.body, menu.value, items, cx, cy, opts, old(doc.next), doc.next)
      ensures doc.body == old(doc.body) + MenuLayer(menu)
      ensures forall n: NodeId :: n < old(doc.next) ==> Look(doc.nodes, n) == Look(old(doc.nodes), n)
    {
      var m := BuildTree(doc, items, opts.themeZ);
      ghost var built := doc.nodes;
      assert m.root !in m.items && m.backdrop !in m.items;
      PolarPlace(doc, cx, cy, opts.radius, m.items, opts.gapAngleDeg);
      MenuTreeFrame(built, doc.nodes, doc.body, m, items, opts.themeZ, old(doc.next), doc.next);
      menu := Some(m);
    }

    /** openMenu: only with an icon frozen; any open menu is closed and a fresh
        one showing the current items is built around the clone's centre. */
    method OpenMenu()
      requires Valid()
      modifies this`menu, doc`next, doc`nodes, doc`body
      ensures Valid()
      ensures !detached ==> menu == old(menu) && doc.next == old(doc.next) && doc.nodes == old(doc.nodes) && doc.body == old(doc.body)
      ensures detached ==> menu.Some? && MenuShown(doc.nodes, doc.body, menu.value, opts.items, Center(cloneRect).x, Center(cloneRect).y, opts, old(doc.next), doc.next)
      ensures detached ==> doc.body == old(doc.body) - MenuLayer(old(menu)) + MenuLayer(menu)
      ensures forall n: NodeId :: n < old(doc.next) ==> Look(doc.nodes, n) == Look(old(doc.nodes), n)
    {
      if !detached || frozen.None? {
        return;
      }
      CloseMenu();
      var anchor := Center(cloneRect);
      BuildMenu(opts.items, anchor.x, anchor.y);
    }

    /** updateItems: the items become `items`; an open menu is rebuilt with
        them, and with no menu open nothing else changes. */
    method UpdateItems(items: seq<Item>)
      requires Valid()
      modifies this`opts, this`menu, doc`next, doc`nodes, doc`body
      ensures Valid() && opts == old(opts).(items := items)
      ensures old(menu).None? ==> menu.None? && doc.next == old(doc.next) && doc.nodes == old(doc.nodes) && doc.body == old(doc.body)
      ensures old(menu).Some? ==> menu.Some? && MenuShown(doc.nodes, doc.body, menu.value, items, Center(cloneRect).x, Center(cloneRect).y, opts, old(doc.next), doc.next)
      ensures old(menu).Some? ==> doc.body == old(doc.body) - MenuLayer(old(menu)) + MenuLayer(menu)
      ensures forall n: NodeId :: n < old(doc.next) ==> Look(doc.nodes, n) == Look(old(doc.nodes), n)
    {
      opts := opts.(items := items);
      if menu.Some? {
        OpenMenu();
      }
    }

    /** The outcome of a double click, given the state before it: an icon is
        frozen afterwards exactly when one was already or the page had a
        followed icon, a newly frozen icon is the followed one, and a menu is
        open exactly when an icon is frozen. */
    ghost predicate AfterDblClick(wasDetached: bool, wasFrozen: Option<Frozen>, cs: seq<Candidate>, mark: nat)
      reads this
    {
      && (detached <==> wasDetached || ActiveIcon(cs).Some?)
      && (wasDetached ==> frozen == wasFrozen)
      && (!wasDetached && ActiveIcon(cs).Some? ==> frozen == Some(Frozen(ActiveIcon(cs).value.el, mark)))
      && (menu.Some? <==> detached)
    }

    /** What a double click does to the document, given the state before it
        (its nodes, body, next id, menu and clone rectangle):
        - attached with no followed icon: nothing;
        - attached with followed icon `a`: the fresh id `next0` is a clone of
          `a` at its rectangle, `a` is only hidden, every other element is as
          it was, and the clone and a menu around its centre join the body;
        - already detached: the menu is rebuilt around the clone's centre and
          elements that existed before are as they were. */
    ghost predicate DblClickEffect(wasDetached: bool, cs: seq<Candidate>, nodes0: map<NodeId, Node>, body0: set<NodeId>, next0: nat, menu0: Option<MenuNodes>, rect0: Rect)
      reads this, doc
    {
      && (!wasDetached && ActiveIcon(cs).None? ==> cloneRect == rect0 && doc.next == next0 && doc.nodes == nodes0 && doc.body == body0)
      && (!wasDetached && ActiveIcon(cs).Some? ==>
        var a := ActiveIcon(cs).value;
        && cloneRect == a.rect
        && Look(doc.nodes, next0) == CloneOf(Look(nodes0, a.el), a.rect, a.zIndex)
        && Look(doc.nodes, a.el) == Look(nodes0, a.el).(style := Look(nodes0, a.el).style["visibility" := Str("hidden")])
        && (forall n: NodeId :: n != a.el && n < next0 ==> Look(doc.nodes, n) == Look(nodes0, n))
        && menu.Some? && doc.body == body0 + {next0} + MenuLayer(menu)
        && MenuShown(doc.nodes, doc.body, menu.value, opts.items, Center(a.rect).x, Center(a.rect).y, opts, next0 + 1, doc.next))
      && (wasDetached ==>
        && cloneRect == rect0
        && menu.Some? && doc.body == body0 - MenuLayer(menu0) + MenuLayer(menu)
        && MenuShown(doc.nodes, doc.body, menu.value, opts.items, Center(cloneRect).x, Center(cloneRect).y, opts, next0, doc.next)
        && (forall n: NodeId :: n < next0 ==> Look(doc.nodes, n) == Look(nodes0, n)))
    }

    /** onBodyDblClick over the icon candidates of the page: freeze the followed
        icon unless one is frozen already (nothing happens when there is none),
        then open the menu around the clone. */
    method OnBodyDblClick(cs: seq<Candidate>)
      requires Valid()
      requires forall c :: c in cs ==> doc.Known(c.el)
      modifies this`detached, this`frozen, this`cloneRect, this`menu, doc`next, doc`nodes, doc`body
      ensures Valid() && AfterDblClick(old(detached), old(frozen), cs, old(doc.next))
      ensures DblClickEffect(old(detached), cs, old(doc.nodes), old(doc.body), old(doc.next), old(menu), old(cloneRect))
    {
      var active := ActiveIcon(cs);
      if !detached {
        if active.None? {
          return;
        }
        assert active.value in cs;
        var _ := FreezeIcon(active);
      }
      OpenMenu();
    }

    /** onBodyPointerDown at time `now`: only touch pointers count; a touch close
        enough in time and space to the last one is a double tap and acts as a
        double click, then spoils the last tap's time; any other touch becomes
        the last tap. */
    method OnBodyPointerDown(ev: PointerEvent, now: real, cs: seq<Candidate>)
      requires Valid()
      requires forall c :: c in cs ==> doc.Known(c.el)
      modifies this`lastTap, this`detached, this`frozen, this`cloneRect, this`menu, doc`next, doc`nodes, doc`body
      ensures Valid()
      ensures ev.pointerType != Touch ==> lastTap == old(lastTap) && detached == old(detached) && frozen == old(frozen) && menu == old(menu) && cloneRect == old(cloneRect)
      ensures ev.pointerType != Touch ==> doc.next == old(doc.next) && doc.nodes == old(doc.nodes) && doc.body == old(doc.body)
      ensures ev.pointerType == Touch && IsDoubleTap(old(lastTap), now, ev.clientX, ev.clientY, opts) ==>
        && lastTap == old(lastTap).(t := 0.0)
        && AfterDblClick(old(detached), old(frozen), cs, old(doc.next))
        && DblClickEffect(old(detached), cs, old(doc.nodes), old(doc.body), old(doc.next), old(menu), old(cloneRect))
      ensures ev.pointerType == Touch && !IsDoubleTap(old(lastTap), now, ev.clientX, ev.clientY, opts) ==>
        lastTap == Tap(now, ev.clientX, ev.clientY) && detached == old(detached) && frozen == old(frozen) && menu == old(menu) && cloneRect == old(cloneRect)
      ensures ev.pointerType == Touch && !IsDoubleTap(old(lastTap), now, ev.clientX, ev.clientY, opts) ==>
        doc.next == old(doc.next) && doc.nodes == old(doc.nodes) && doc.body == old(doc.body)
    {
      if ev.pointerType != Touch {
        return;
      }
      var dt := now - lastTap.t;
      var dx := Abs(ev.clientX - lastTap.x);
      var dy := Abs(ev.clientY - lastTap.y);
      if dt <= opts.doubleTapMs && dx <= opts.doubleTapTolPx && dy <= opts.doubleTapTolPx {
        OnBodyDblClick(cs);
        lastTap := lastTap.(t := 0.0);
        return;
      }
      lastTap := Tap(now, ev.clientX, ev.clientY);
    }
  }
}
