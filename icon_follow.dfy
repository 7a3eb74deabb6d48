/** The follow/drag controller of js/icon-follow.js: a picked icon is pinned at
    its on-screen rectangle and then follows a target offset, set from mouse
    moves (centred under the cursor) or from a captured touch/pen pointer
    (keeping the grab offset), through a damped spring stepped once per frame. */
module IconFollow {
  import opened Wrappers
  import opened Dom

  /** Spring natural frequency, in Hz. */
  const FreqHz: real := 2.2
  /** Spring damping ratio (above 1: over-damped). */
  const DampingRatio: real := 1.05
  /** The double value of Math.PI * 2, as a real. */
  const TwoPi: real := 6.283185307179586
  const Omega: real := TwoPi * FreqHz
  /** z-index given to the picked icon. */
  const Z: int := 999999
  /** Upper bound of a frame's time step, in seconds. */
  const MaxFrameDt: real := 0.033
  /** Class that fades out the icons not picked. */
  const HideClass := "__ifst_hide"
  /** Class every icon receives at start-up. */
  const InitClass := "__ifst_init"

  /** How a client position becomes a target: centred under a mouse pointer,
      or keeping the grab offset of a touch or pen pointer. */
  datatype Mode = MouseMode | TouchMode

  /** The layout numbers read at event time: the viewport size and the
      followed element's offset size. */
  datatype Layout = Layout(
    innerWidth: real,
    innerHeight: real,
    offsetWidth: real,
    offsetHeight: real)

  /** The viewport clamp of one coordinate: below 0 gives 0, above `max` gives
      `max`. When the element is wider than the viewport (`max < 0`) the result
      is 0 for a negative request and `max` otherwise. */
  function Clamp(d: real, max: real): (r: real)
    ensures max >= 0.0 ==> 0.0 <= r <= max
    ensures max >= 0.0 ==> forall p :: 0.0 <= p <= max ==> Dist(r, d) <= Dist(p, d)
    ensures 0.0 <= d <= max ==> r == d
    ensures max < 0.0 ==> (r == 0.0 <==> d < 0.0) && (r != 0.0 ==> r == max)
  {
    if d < 0.0 then 0.0 else if d > max then max else d
  }

  function Dist(a: real, b: real): real
  {
    if a < b then b - a else a - b
  }

  /** The requested top-left coordinate, before clamping. */
  function Desired(mode: Mode, client: real, half: real, grab: real): real
  {
    match mode
    case MouseMode => client - half
    case TouchMode => client - grab
  }

  /** JavaScript's Math.round: the nearest integer, halves rounded up. */
  function Round(v: real): (r: int)
    ensures v - 0.5 < r as real <= v + 0.5
  {
    (v + 0.5).Floor
  }

  /** The time step of a frame at time `t` (milliseconds) after the frame at
      `lastT`: 0 on the first frame, never above MaxFrameDt, otherwise the
      elapsed time in seconds. */
  function FrameDt(lastT: Option<real>, t: real): (dt: real)
    ensures lastT.None? ==> dt == 0.0
    ensures dt <= MaxFrameDt
    ensures lastT.Some? && t - lastT.value <= 33.0 ==> dt == (t - lastT.value) / 1000.0
    ensures lastT.Some? && t - lastT.value > 33.0 ==> dt == MaxFrameDt
  {
    var prev := lastT.GetOr(t);
    var raw := (t - prev) / 1000.0;
    if raw > MaxFrameDt then MaxFrameDt else raw
  }

  /** One semi-implicit Euler step of x'' + 2 zeta omega x' + omega^2 (x - target) = 0
      on one axis: the new (position, velocity). */
  function AxisStep(pos: real, vel: real, target: real, dt: real): (r: (real, real))
    ensures dt == 0.0 ==> r == (pos, vel)
    ensures pos == target && vel == 0.0 ==> r == (pos, vel)
  {
    var a := -2.0 * DampingRatio * Omega * vel - (Omega * Omega) * (pos - target);
    var v := vel + a * dt;
    assert dt == 0.0 ==> a * dt == 0.0 && v * dt == 0.0;
    assert pos == target && vel == 0.0 ==> a == 0.0;
    (pos + v * dt, v)
  }

  /** The intermediate values of one axis step determine its result. */
  lemma AxisStepUnfold(pos: real, vel: real, target: real, dt: real, a: real, v: real, p: real)
    requires a == -2.0 * DampingRatio * Omega * vel - (Omega * Omega) * (pos - target)
    requires v == vel + a * dt && p == pos + v * dt
    ensures (p, v) == AxisStep(pos, vel, target, dt)
  {
    assert AxisStep(pos, vel, target, dt).1 == v;
    assert AxisStep(pos, vel, target, dt).0 == p;
  }

  /** The inline style of an icon once it is picked: pinned, fixed-position,
      explicitly sized at its rectangle, on top, not intercepting pointer events. */
  function Pinned(s: Style, r: Rect): Style
  {
    Layered(Boxed(s, r))
  }

  function Boxed(s: Style, r: Rect): Style
  {
    s["position" := Str("fixed")]
     ["left" := Px(r.left)]["top" := Px(r.top)]
     ["width" := Px(r.width)]["height" := Px(r.height)]
  }

  function Layered(s: Style): Style
  {
    s["margin" := Str("0")]
     ["zIndex" := Int(Z)]
     ["transformOrigin" := Str("top left")]
     ["transform" := Translate(0, 0)]
     ["pointerEvents" := Str("none")]
  }

  const Origin := Point(0.0, 0.0)

  /** The followed icon once its transform shows offset `p`, rounded to pixels. */
  function Shown(n: Node, p: Point): Node
  {
    n.(style := n.style["transform" := Translate(Round(p.x), Round(p.y))])
  }

  /** An icon as marked at start-up. */
  function Marked(n: Node): Node
  {
    n.(classes := n.classes + {InitClass})
  }

  /** An icon faded out by the first pick. */
  function Faded(n: Node): Node
  {
    n.(classes := n.classes + {HideClass}, style := n.style["pointerEvents" := Str("none")])
  }

  lemma PinnedKeepsOtherProperties(s: Style, r: Rect, p: string)
    requires p !in {"position", "left", "top", "width", "height", "margin",
                    "zIndex", "transformOrigin", "transform", "pointerEvents"}
    ensures p in Pinned(s, r) <==> p in s
    ensures p in s ==> Pinned(s, r)[p] == s[p]
  {
  }

  /** Pins `el` at rectangle `r` and makes it a child of <body>. */
  method Pin(doc: Document, el: NodeId, r: Rect)
    requires doc.Valid() && doc.Known(el)
    modifies doc`nodes, doc`body
    ensures doc.Valid()
    ensures doc.body == old(doc.body) + {el}
    ensures doc.NodeOf(el) == old(doc.NodeOf(el)).(style := Pinned(old(doc.StyleOf(el)), r))
    ensures forall n :: n != el ==> doc.NodeOf(n) == old(doc.NodeOf(n))
  {
    PinBox(doc, el, r);
    PinLayer(doc, el);
    if el !in doc.body {
      doc.AppendToBody(el);
    }
  }

  /** The first half of the pin: fixed position at the rectangle's box. */
  method PinBox(doc: Document, el: NodeId, r: Rect)
    requires doc.Valid() && doc.Known(el)
    modifies doc`nodes
    ensures doc.Valid()
    ensures doc.NodeOf(el) == old(doc.NodeOf(el)).(style := Boxed(old(doc.StyleOf(el)), r))
    ensures forall n :: n != el ==> doc.NodeOf(n) == old(doc.NodeOf(n))
  {
    doc.SetStyle(el, "position", Str("fixed"));
    doc.SetStyle(el, "left", Px(r.left));
    doc.SetStyle(el, "top", Px(r.top));
    doc.SetStyle(el, "width", Px(r.width));
    doc.SetStyle(el, "height", Px(r.height));
  }

  /** The second half of the pin: no margin, on top, untransformed, transparent
      to pointer events. */
  method PinLayer(doc: Document, el: NodeId)
    requires doc.Valid() && doc.Known(el)
    modifies doc`nodes
    ensures doc.Valid()
    ensures doc.NodeOf(el) == old(doc.NodeOf(el)).(style := Layered(old(doc.StyleOf(el))))
    ensures forall n :: n != el ==> doc.NodeOf(n) == old(doc.NodeOf(n))
  {
    doc.SetStyle(el, "margin", Str("0"));
    doc.SetStyle(el, "zIndex", Int(Z));
    doc.SetStyle(el, "transformOrigin", Str("top left"));
    doc.SetStyle(el, "transform", Translate(0, 0));
    doc.SetStyle(el, "pointerEvents", Str("none"));
  }

  class Follower {
    const doc: Document
    /** The candidate icons, in document order. */
    const icons: seq<NodeId>

    var active: Option<NodeId>
    var picked: bool
    /** The pinned rectangle's top-left, and half its size. */
    var base: Point
    var half: Point
    /** Spring state relative to the base: offset, velocity, target offset. */
    var pos: Point
    var vel: Point
    var target: Point
    var touchDragging: bool
    var touchPointerId: Option<int>
    /** Where a touch or pen pointer grabbed the icon, from its top-left. */
    var grab: Point
    var lastT: Option<real>

    /** The document is well formed and the icons are distinct elements of it. */
    ghost predicate IconsValid()
      reads doc
    {
      && doc.Valid()
      && (forall i :: 0 <= i < |icons| ==> doc.Known(icons[i]))
      && (forall i, j :: 0 <= i < j < |icons| ==> icons[i] != icons[j])
    }

    ghost predicate Valid()
      reads this, doc
    {
      && IconsValid()
      && (active.Some? ==> picked && active.value in icons)
      && (touchDragging <==> touchPointerId.Some?)
      && (touchDragging ==> active.Some?)
    }

    /** Start-up with the icons found on the page: every icon gets InitClass.
        (With no icon the source stops here; a controller over no icons never
        has an active icon.) */
    constructor (doc: Document, icons: seq<NodeId>)
      requires doc.Valid()
      requires forall i :: 0 <= i < |icons| ==> doc.Known(icons[i])
      requires forall i, j :: 0 <= i < j < |icons| ==> icons[i] != icons[j]
      modifies doc`nodes
      ensures Valid()
      ensures this.doc == doc && this.icons == icons
      ensures active == None && !picked && !touchDragging && lastT == None
      ensures pos == Origin && vel == Origin && target == Origin
      ensures forall n :: doc.NodeOf(n) == if n in icons then Marked(old(doc.NodeOf(n))) else old(doc.NodeOf(n))
    {
      var i := 0;
      while i < |icons|
        invariant 0 <= i <= |icons|
        invariant doc.Valid()
        invariant forall n :: doc.NodeOf(n) == if n in icons[..i] then Marked(old(doc.NodeOf(n))) else old(doc.NodeOf(n))
      {
        assert icons[..i + 1] == icons[..i] + [icons[i]];
        doc.AddClass(icons[i], InitClass);
        i := i + 1;
      }
      assert icons[..i] == icons;
      this.doc := doc;
      this.icons := icons;
      active := None;
      picked := false;
      base, half := Origin, Origin;
      pos, vel, target := Origin, Origin, Origin;
      touchDragging := false;
      touchPointerId := None;
      grab := Origin;
      lastT := None;
    }

    /** The stored target for a client position: the desired top-left, clamped to
        the viewport, relative to the base. Nothing happens without an active icon.
        (The source's viewport-clamp switch is on; the model fixes it so.) */
    method SetTargetFromClientXY(cx: real, cy: real, mode: Mode, lay: Layout)
      modifies this`target
      ensures active.None? ==> target == old(target)
      ensures active.Some? ==> target == Point(
        Clamp(Desired(mode, cx, half.x, grab.x), lay.innerWidth - lay.offsetWidth) - base.x,
        Clamp(Desired(mode, cy, half.y, grab.y), lay.innerHeight - lay.offsetHeight) - base.y)
      ensures active.Some? && lay.innerWidth - lay.offsetWidth >= 0.0 ==>
        0.0 <= base.x + target.x <= lay.innerWidth - lay.offsetWidth
      ensures active.Some? && lay.innerHeight - lay.offsetHeight >= 0.0 ==>
        0.0 <= base.y + target.y <= lay.innerHeight - lay.offsetHeight
    {
      if active.None? {
        return;
      }
      var desiredLeft, desiredTop;
      if mode == MouseMode {
        desiredLeft := cx - half.x;
        desiredTop := cy - half.y;
      } else {
        desiredLeft := cx - grab.x;
        desiredTop := cy - grab.y;
      }
      var maxLeft := lay.innerWidth - lay.offsetWidth;
      var maxTop := lay.innerHeight - lay.offsetHeight;
      if desiredLeft < 0.0 { desiredLeft := 0.0; } else if desiredLeft > maxLeft { desiredLeft := maxLeft; }
      if desiredTop < 0.0 { desiredTop := 0.0; } else if desiredTop > maxTop { desiredTop := maxTop; }
      target := Point(desiredLeft - base.x, desiredTop - base.y);
    }

    /** Global pointermove: only mouse pointers move the target. */
    method OnPointerMove(ev: PointerEvent, lay: Layout)
      modifies this`target
      ensures (active.None? || ev.pointerType != Mouse) ==> target == old(target)
      ensures active.Some? && ev.pointerType == Mouse ==> target == Point(
        Clamp(ev.clientX - half.x, lay.innerWidth - lay.offsetWidth) - base.x,
        Clamp(ev.clientY - half.y, lay.innerHeight - lay.offsetHeight) - base.y)
    {
      if active.None? || ev.pointerType != Mouse {
        return;
      }
      SetTargetFromClientXY(ev.clientX, ev.clientY, MouseMode, lay);
    }

    /** Global mousemove fallback. */
    method OnMouseMove(cx: real, cy: real, lay: Layout)
      modifies this`target
      ensures active.None? ==> target == old(target)
      ensures active.Some? ==> target == Point(
        Clamp(cx - half.x, lay.innerWidth - lay.offsetWidth) - base.x,
        Clamp(cy - half.y, lay.innerHeight - lay.offsetHeight) - base.y)
    {
      if active.None? {
        return;
      }
      SetTargetFromClientXY(cx, cy, MouseMode, lay);
    }

    /** Pointermove during a touch drag: only the captured pointer moves the target. */
    method OnTouchMove(ev: PointerEvent, lay: Layout)
      modifies this`target
      ensures !(touchDragging && active.Some? && touchPointerId == Some(ev.pointerId)) ==>
        target == old(target)
      ensures touchDragging && active.Some? && touchPointerId == Some(ev.pointerId) ==> target == Point(
        Clamp(ev.clientX - grab.x, lay.innerWidth - lay.offsetWidth) - base.x,
        Clamp(ev.clientY - grab.y, lay.innerHeight - lay.offsetHeight) - base.y)
    {
      if !touchDragging || active.None? {
        return;
      }
      if touchPointerId != Some(ev.pointerId) {
        return;
      }
      SetTargetFromClientXY(ev.clientX, ev.clientY, TouchMode, lay);
    }

    /** Pointerup/pointercancel: releasing the captured pointer ends the drag and
        leaves the spring state where it is; any other pointer is ignored. */
    method OnTouchUp(ev: PointerEvent)
      requires Valid()
      modifies this`touchDragging, this`touchPointerId
      ensures Valid()
      ensures old(touchPointerId) != Some(ev.pointerId) ==>
        touchDragging == old(touchDragging) && touchPointerId == old(touchPointerId)
      ensures old(touchPointerId) == Some(ev.pointerId) ==> !touchDragging && touchPointerId == None
      ensures pos == old(pos) && target == old(target)
    {
      if touchPointerId != Some(ev.pointerId) {
        return;
      }
      touchDragging := false;
      touchPointerId := None;
    }

    /** A touch or pen pointerdown anywhere once an icon is active: capture that
        pointer and grab the icon where it currently is (rectangle `r`), so its
        target is its current position. */
    method OnGlobalTouchStart(ev: PointerEvent, r: Rect, lay: Layout)
      requires Valid()
      modifies this`touchDragging, this`touchPointerId, this`grab, this`target
      ensures Valid()
      ensures (active.None? || ev.pointerType == Mouse) ==>
        && touchDragging == old(touchDragging) && touchPointerId == old(touchPointerId)
        && grab == old(grab) && target == old(target)
      ensures active.Some? && ev.pointerType != Mouse ==>
        && touchDragging && touchPointerId == Some(ev.pointerId)
        && grab == Point(ev.clientX - r.left, ev.clientY - r.top)
        && target == Point(
          Clamp(r.left, lay.innerWidth - lay.offsetWidth) - base.x,
          Clamp(r.top, lay.innerHeight - lay.offsetHeight) - base.y)
      ensures active.Some? && ev.pointerType != Mouse && 0.0 <= r.left <= lay.innerWidth - lay.offsetWidth ==>
        base.x + target.x == r.left
      ensures active.Some? && ev.pointerType != Mouse && 0.0 <= r.top <= lay.innerHeight - lay.offsetHeight ==>
        base.y + target.y == r.top
    {
      if active.None? || ev.pointerType == Mouse {
        return;
      }
      touchDragging := true;
      touchPointerId := Some(ev.pointerId);
      grab := Point(ev.clientX - r.left, ev.clientY - r.top);
      SetTargetFromClientXY(ev.clientX, ev.clientY, TouchMode, lay);
    }

    /** The first pick's fade: every icon other than `el` gets HideClass and stops
        intercepting pointer events. */
    method FadeOthers(el: NodeId)
      requires Valid()
      modifies doc`nodes
      ensures Valid()
      ensures forall n :: doc.NodeOf(n) == if n != el && n in icons then Faded(old(doc.NodeOf(n))) else old(doc.NodeOf(n))
    {
      var i := 0;
      while i < |icons|
        invariant 0 <= i <= |icons|
        invariant doc.Valid()
        invariant forall n :: doc.NodeOf(n) == if n != el && n in icons[..i] then Faded(old(doc.NodeOf(n))) else old(doc.NodeOf(n))
      {
        assert icons[..i + 1] == icons[..i] + [icons[i]];
        var o := icons[i];
        if o != el {
          doc.AddClass(o, HideClass);
          doc.SetStyle(o, "pointerEvents", Str("none"));
        }
        i := i + 1;
      }
      assert icons[..i] == icons;
    }

    /** The document side of a pick: the first pick's fade, then the pin. */
    method FadeAndPin(el: NodeId, r: Rect)
      requires Valid() && el in icons
      modifies this`picked, doc`nodes, doc`body
      ensures Valid() && picked
      ensures doc.body == old(doc.body) + {el}
      ensures doc.NodeOf(el) == old(doc.NodeOf(el)).(style := Pinned(old(doc.StyleOf(el)), r))
      ensures forall n :: n != el ==> doc.NodeOf(n) == if !old(picked) && n in icons then Faded(old(doc.NodeOf(n))) else old(doc.NodeOf(n))
    {
      if !picked {
        FadeOthers(el);
        picked := true;
      }
      assert doc.NodeOf(el) == old(doc.NodeOf(el));
      Pin(doc, el, r);
    }

    /** The session side of a pick: `el` becomes the active icon with base `r`,
        and the spring state and frame clock start afresh. */
    method StartSession(el: NodeId, r: Rect)
      requires Valid() && el in icons && picked
      modifies this`active, this`base, this`half, this`pos, this`vel, this`target, this`lastT
      ensures Valid()
      ensures active == Some(el)
      ensures base == Point(r.left, r.top) && half == Point(r.width / 2.0, r.height / 2.0)
      ensures pos == Origin && vel == Origin && target == Origin && lastT == None
    {
      active := Some(el);
      base := Point(r.left, r.top);
      half := Point(r.width / 2.0, r.height / 2.0);
      pos, vel, target := Origin, Origin, Origin;
      lastT := None;
    }

    /** Pointerdown on icon `el`, whose rectangle `r` is read after the first
        pick's fade and before the pin. The first pick fades every other icon; every pick pins `el`, makes it the
        active icon, takes `r` as the base, zeroes the spring state and sets the
        first target: under the mouse, or at the grab point of a touch/pen. */
    method OnIconPointerDown(el: NodeId, ev: PointerEvent, r: Rect, lay: Layout)
      requires Valid() && el in icons
      modifies this, doc`nodes, doc`body
      ensures Valid()
      ensures active == Some(el) && picked
      ensures base == Point(r.left, r.top) && half == Point(r.width / 2.0, r.height / 2.0)
      ensures pos == Origin && vel == Origin && lastT == None
      ensures doc.body == old(doc.body) + {el}
      ensures doc.NodeOf(el) == old(doc.NodeOf(el)).(style := Pinned(old(doc.StyleOf(el)), r))
      ensures forall n :: n != el ==> doc.NodeOf(n) == if !old(picked) && n in icons then Faded(old(doc.NodeOf(n))) else old(doc.NodeOf(n))
      ensures ev.pointerType == Mouse ==> (
        && touchDragging == old(touchDragging) && touchPointerId == old(touchPointerId)
        && grab == old(grab)
        && target == Point(
          Clamp(ev.clientX - half.x, lay.innerWidth - lay.offsetWidth) - base.x,
          Clamp(ev.clientY - half.y, lay.innerHeight - lay.offsetHeight) - base.y))
      ensures ev.pointerType != Mouse ==> (
        && touchDragging && touchPointerId == Some(ev.pointerId)
        && grab == Point(ev.clientX - r.left, ev.clientY - r.top)
        && target == Point(
          Clamp(r.left, lay.innerWidth - lay.offsetWidth) - r.left,
          Clamp(r.top, lay.innerHeight - lay.offsetHeight) - r.top))
      ensures ev.pointerType != Mouse && 0.0 <= r.left <= lay.innerWidth - lay.offsetWidth ==> target.x == 0.0
      ensures ev.pointerType != Mouse && 0.0 <= r.top <= lay.innerHeight - lay.offsetHeight ==> target.y == 0.0
    {
      FadeAndPin(el, r);
      StartSession(el, r);

      if ev.pointerType == Mouse {
        SetTargetFromClientXY(ev.clientX, ev.clientY, MouseMode, lay);
      } else {
        touchDragging := true;
        touchPointerId := Some(ev.pointerId);
        grab := Point(ev.clientX - r.left, ev.clientY - r.top);
        SetTargetFromClientXY(ev.clientX, ev.clientY, TouchMode, lay);
      }
    }

    /** One spring step of `dt` seconds on both axes, each axis on its own, then
        the active icon's transform shows the rounded offset. */
    method StepSpring(dt: real)
      requires Valid()
      modifies this`pos, this`vel, doc`nodes
      ensures Valid()
      ensures (pos.x, vel.x) == AxisStep(old(pos.x), old(vel.x), target.x, dt)
      ensures (pos.y, vel.y) == AxisStep(old(pos.y), old(vel.y), target.y, dt)
      ensures active.None? ==> doc.nodes == old(doc.nodes)
      ensures active.Some? ==> doc.NodeOf(active.value) == Shown(old(doc.NodeOf(active.value)), pos)
      ensures active.Some? ==> forall n :: n != active.value ==> doc.NodeOf(n) == old(doc.NodeOf(n))
    {
      var p0, v0 := pos, vel;
      var ax := -2.0 * DampingRatio * Omega * v0.x - (Omega * Omega) * (p0.x - target.x);
      var ay := -2.0 * DampingRatio * Omega * v0.y - (Omega * Omega) * (p0.y - target.y);
      var nvx := v0.x + ax * dt;
      var nvy := v0.y + ay * dt;
      vel := Point(nvx, nvy);
      pos := Point(p0.x + nvx * dt, p0.y + nvy * dt);
      AxisStepUnfold(p0.x, v0.x, target.x, dt, ax, vel.x, pos.x);
      AxisStepUnfold(p0.y, v0.y, target.y, dt, ay, vel.y, pos.y);
      if active.Some? {
        doc.SetStyle(active.value, "transform", Translate(Round(pos.x), Round(pos.y)));
      }
    }

    /** The animation frame at time `t` (milliseconds): the first frame after a
        pick steps by 0, later ones by the elapsed time, at most MaxFrameDt. */
    method Animate(t: real)
      requires Valid()
      modifies this`pos, this`vel, this`lastT, doc`nodes
      ensures Valid()
      ensures lastT == Some(t)
      ensures (pos.x, vel.x) == AxisStep(old(pos.x), old(vel.x), target.x, FrameDt(old(lastT), t))
      ensures (pos.y, vel.y) == AxisStep(old(pos.y), old(vel.y), target.y, FrameDt(old(lastT), t))
      ensures old(lastT).None? ==> pos == old(pos) && vel == old(vel)
      ensures active.None? ==> doc.nodes == old(doc.nodes)
      ensures active.Some? ==> doc.NodeOf(active.value) == Shown(old(doc.NodeOf(active.value)), pos)
      ensures active.Some? ==> forall n :: n != active.value ==> doc.NodeOf(n) == old(doc.NodeOf(n))
    {
      if lastT.None? {
        lastT := Some(t);
      }
      var dt := (t - lastT.value) / 1000.0;
      lastT := Some(t);
      if dt > MaxFrameDt {
        dt := MaxFrameDt;
      }
      StepSpring(dt);
    }
  }
}
