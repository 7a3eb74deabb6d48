# Follow icon and radial menu, modelled in Dafny

The model covers two browser scripts that share a page.

- **The follow controller** (`js/icon-follow.js`). A pointer-down on one of the page's icons picks it:
  - the first pick fades every other icon;
  - the picked icon is pinned, fixed-position, at the rectangle it occupied;
  - it then follows a target offset through a damped spring stepped once per animation frame.
  A mouse sets the target under the cursor. A touch or pen pointer is captured and drags the icon, keeping the point where it was grabbed. The target is clamped to the viewport.
- **The radial menu** (`js/circular-menu.js`). A double click, or a double tap of a touch pointer, on the page does two things:
  - it finds the followed icon: the position-fixed, visible candidate of greatest z-index;
  - it "detaches" it: the icon is hidden and a pinned clone stands in its place.
  A ring of item buttons then opens around the clone. The clone is meant to reattach the icon and close the menu when it receives a pointer-down. For the followed icon it does not receive one as written (see Findings). While a menu is open, the full-viewport backdrop also covers it (see Left out). The menu's public API is also modelled:
  - `init` (option merge);
  - `updateItems`;
  - `isOpen`;
  - `getState`.

Files:

- `wrappers.dfy`: `Option`.
- `dom.dfy`: the part of the document both scripts touch.
  - Elements are opaque ids (`NodeId`), each with a tag, an inline style map, a class set, string attributes and child ids.
  - `Document` also holds the set of direct children of `<body>`.
  - Its methods are the DOM calls the scripts make (`createElement`, `cloneNode`, `style[p] = v`, `classList`, `appendChild`, `removeChild`). Each is specified pointwise: what the touched node becomes, and that every other node is unchanged.
- `icon_follow.dfy`: the helpers below, and class `Follower`, which holds the script's closure state.
  - Pure helpers: viewport clamp, `Math.round`, frame time step, one spring step, the pin style.
  - The closure variables come in x/y pairs. The model keeps each pair in one `Point` field: base, half size, offset, velocity, target and grab point. The source's `grab` is itself such an object.
- `circular_menu.dfy`: the helpers below, and class `Controller`, which holds the script's `state` record and its handlers.
  - Option merge.
  - Choice of the followed icon, as a pure selection over candidate records.
  - The clone's style.
  - The ring angles, in turns.
  - The menu's element tree.
  - Double-tap detection.

Browser queries become parameters of the handlers:
- `getBoundingClientRect`;
- the computed style of the icon candidates;
- `innerWidth`, `offsetWidth` and the like;
- the event's pointer type, id and client position;
- the `requestAnimationFrame` timestamp and `performance.now()`.

The invariants the handlers keep:
- `Controller.Valid`: `detached` holds exactly when an icon is frozen, and an open menu implies a frozen icon.
- `Follower.Valid`:
  - an active icon is one of the icons and has been picked;
  - a drag is in progress exactly when a pointer id is captured;
  - a drag implies an active icon.

## Model

A function that only computes a value (`ActiveIcon`, `ItemTurn`, `Center`, `IsDoubleTap`, `CloneStyleAsWritten`, `IconFollow.Desired`) has no row of its own. It is named in the row of the lemma or handler whose contract states what it means.

| member | source | states |
|---|---|---|
| IconFollow.Clamp | js/icon-follow.js:100-105 | With a non-negative room `max`, the clamped coordinate lies in [0, max] and is the point of [0, max] nearest the request. A request already inside is kept. With negative room the result is 0 exactly for negative requests, else `max`. |
| IconFollow.Round | js/icon-follow.js:72 | `Math.round`: the integer within half a unit of the value, with halves rounded up. |
| IconFollow.FrameDt | js/icon-follow.js:75-79 | The first frame steps by 0. A frame never steps by more than 0.033 s; below that it steps by the elapsed milliseconds / 1000. |
| IconFollow.AxisStep | js/icon-follow.js:65-70 | One semi-implicit Euler step of one axis. A step of 0 s, or a step at rest on the target, leaves position and velocity unchanged. |
| IconFollow.PinnedKeepsOtherProperties | js/icon-follow.js:174-184 | Pinning touches only the ten properties it sets. Every other inline property is kept as it was. |
| IconFollow.PinBox | js/icon-follow.js:175-179 | The icon becomes fixed-position at the rectangle's left, top, width and height. No other element changes. |
| IconFollow.PinLayer | js/icon-follow.js:180-184 | The icon gets no margin, z-index 999999, origin top left, a zero translation and `pointer-events: none`. No other element changes. |
| IconFollow.Pin | js/icon-follow.js:174-185 | The icon's style becomes the pinned style and the icon becomes a child of `<body>`. No other element changes. |
| IconFollow.Follower.constructor | js/icon-follow.js:38-63 | Nothing is active, picked or dragged, the spring is zero and no frame has been seen. Every icon, and only icons, gets `__ifst_init`. |
| IconFollow.Follower.SetTargetFromClientXY | js/icon-follow.js:86-109 | No active icon: the target is kept. Otherwise the target is the clamped desired top-left minus the base, where the desired top-left (`Desired`, lines 91-98) is the client position minus the half size (mouse) or minus the grab offset (touch). With non-negative room, the target position lies in the viewport. |
| IconFollow.Follower.OnPointerMove | js/icon-follow.js:112-115 | A non-mouse pointer, or no active icon, keeps the target. A mouse sets it centred under the cursor. |
| IconFollow.Follower.OnMouseMove | js/icon-follow.js:116-119 | No active icon keeps the target. Otherwise the target is set centred under the cursor. |
| IconFollow.Follower.OnTouchMove | js/icon-follow.js:122-127 | Only the captured pointer of an active drag moves the target, keeping the grab offset. Anything else keeps it. |
| IconFollow.Follower.OnTouchUp | js/icon-follow.js:128-137 | Another pointer id changes nothing. The captured id ends the drag and clears the id. Offset and target are untouched. |
| IconFollow.Follower.OnGlobalTouchStart | js/icon-follow.js:140-156 | A mouse, or no active icon: nothing changes. Otherwise the pointer is captured, the grab offset is the client position minus the icon's top-left, and the new target puts the icon where it is whenever that is inside the clamp. |
| IconFollow.Follower.FadeOthers | js/icon-follow.js:162-169 | Every icon other than the picked one gets `__ifst_hide` and `pointer-events: none`. No other element changes. |
| IconFollow.Follower.FadeAndPin | js/icon-follow.js:162-185 | Only the first pick fades the others. `picked` becomes true for good. The picked icon is pinned and put in `<body>`. |
| IconFollow.Follower.StartSession | js/icon-follow.js:187-193 | The icon becomes active, the base is the rectangle's top-left, the half size is half its size, and the spring and frame clock restart from zero. |
| IconFollow.Follower.OnIconPointerDown | js/icon-follow.js:159-221 | The whole selection handler. First pick: the others fade. The icon is pinned at the rectangle taken before the pin, after the first pick's fade, and the session restarts, and the first target is set: under the mouse, or at the grab point of a captured touch/pen pointer. For a touch/pen pointer the target offset is 0 when the rectangle is inside the clamp. |
| IconFollow.Follower.StepSpring | js/icon-follow.js:65-73 | Each axis takes one step of its own. The active icon's transform then shows the rounded offset, and no other element changes. No active icon: the document is unchanged. |
| IconFollow.Follower.Animate | js/icon-follow.js:75-82 | The frame steps the spring by FrameDt of the previous frame time and records the new one. The first frame after a pick leaves position and velocity unchanged. |
| CircularMenu.Merge | js/circular-menu.js:274-281 | Each option the caller gives wins. Each other option is the default. With nothing given, the options are the defaults. |
| CircularMenu.TopIndex | js/circular-menu.js:62-73 | The index found, if any, is that of a qualifying candidate. |
| CircularMenu.TopIndexSound | js/circular-menu.js:62-73 | The index found heads the stable sort by decreasing z-index: nothing qualifying is above it and nothing qualifying before it is level with it. None is found exactly when no candidate qualifies. |
| CircularMenu.TopIndexComplete | js/circular-menu.js:70-72 | The head of the stable sort is unique: whenever an index heads it, that index is the one found. |
| CircularMenu.ActiveIconIsTop | js/circular-menu.js:62-73 | `ActiveIcon` is getActiveIcon. It finds nothing exactly when no candidate is fixed, displayed, visible and of positive opacity. Otherwise it returns the head of the stable sort, with an unparsable z-index read as 0. |
| CircularMenu.CloneZAsWritten | js/circular-menu.js:120 | The as-written clone z-index is NaN exactly when the computed z-index does not parse as an integer. |
| CircularMenu.CloneZ | js/circular-menu.js:120 | The clone's z-index is at least 1000001 and above the original's. It is either 1000001 or the original's plus 1, and agrees with the as-written value whenever that value is a number. |
| CircularMenu.CloneAsWrittenKeepsFollowStyle | js/circular-menu.js:110-121 | `CloneStyleAsWritten` is the clone's style exactly as these lines leave it. As written, an inline translate copied from the followed icon moves the clone away from the rectangle it is pinned at. A copied `pointer-events: none` keeps it from taking pointer events. |
| CircularMenu.CloneAsWrittenCounterexample | js/circular-menu.js:110-121 | An icon resting 30 px right of its pin, with z-index `auto`: its as-written clone shows 30 px off, takes no pointer events and gets no z-index. |
| CircularMenu.CloneStyle | js/circular-menu.js:110-121 | The clone shows exactly at the rectangle, has its width and height, takes pointer events, has z-index CloneZ and no opacity. Every other inline property is copied, and no property is added beyond those set. |
| CircularMenu.MakeClone | js/circular-menu.js:110-121 | A fresh element that is CloneOf the original: its tag, classes without `__ifst_hide` plus `cmv2-clone`, attributes and clone style. No other element changes. |
| CircularMenu.PlaceClone | js/circular-menu.js:112-115 | The clone gets the rectangle's pixel box. No other element changes. |
| CircularMenu.FinishClone | js/circular-menu.js:117-121 | The clone loses `__ifst_hide` and its opacity, and gets its z-index, `transform: none` and `pointer-events: auto`. No other element changes. |
| CircularMenu.ItemTurnSpacing | js/circular-menu.js:152-156 | `ItemTurn` is the angle of button i (lines 153-156), in turns. Neighbouring buttons are one share (span / n) of the arc apart. |
| CircularMenu.ItemTurnMirror | js/circular-menu.js:153-156 | The ring is symmetric about straight up: buttons i and n-1-i sit at mirrored angles. |
| CircularMenu.ItemTurnInsideArc | js/circular-menu.js:152-156 | With a gap below 360 degrees, every button lies strictly inside the arc, and the gap is centred straight down. |
| CircularMenu.FourItemsNoGap | js/circular-menu.js:152-156 | Four items and no gap sit at -225, -135, -45 and 45 degrees. |
| CircularMenu.PolarPlace | js/circular-menu.js:149-162 | Button i's left/top become the point at ItemTurn(i) on the ring. Nothing else about any element changes. The buttons must be distinct elements, as fresh buttons are. |
| CircularMenu.PlaceOne | js/circular-menu.js:156-160 | One button's left and top are set on the ring. No other element changes. |
| CircularMenu.ButtonShowsLabel | js/circular-menu.js:194-197 | A built button shows exactly its item's label text. |
| CircularMenu.NewButton | js/circular-menu.js:179-181 | A fresh `button` of type button with class `cmv2-item`. |
| CircularMenu.AddImage | js/circular-menu.js:188-193 | A fresh `img` with alt (the label, else the id) and src is appended to the button. No other element changes. |
| CircularMenu.AddLabel | js/circular-menu.js:194-198 | A fresh `span` with the label text is appended to the button. No other element changes. |
| CircularMenu.AddParts | js/circular-menu.js:188-198 | The button's children are the image when there is an icon, then the span when there is a label, built from fresh ids. |
| CircularMenu.BuildButton | js/circular-menu.js:179-198 | A fresh button showing its item, unstyled, built only from fresh ids. |
| CircularMenu.AppendButton | js/circular-menu.js:178-221 | One button built and appended to the root. Existing elements other than the root are unchanged. |
| CircularMenu.BuildButtons | js/circular-menu.js:178-222 | Exactly one fresh button per item, in item order, each showing its item, all appended to the root in that order. |
| CircularMenu.BuildLayers | js/circular-menu.js:167-176 | The backdrop has z-index themeZ-1 and takes pointer events; the root has z-index themeZ. Both are fresh. |
| CircularMenu.BuildTree | js/circular-menu.js:167-225 | Backdrop and root join `<body>`, and the root holds one button per item. Elements that existed before are unchanged. |
| CircularMenu.MenuShowsLabels | js/circular-menu.js:178-228 | An open menu's root has one child per item, and child j shows item j's label. |
| CircularMenu.Controller.constructor | js/circular-menu.js:45-51 | Default options, no tap seen, nothing frozen, no menu. |
| CircularMenu.Controller.Init | js/circular-menu.js:274-281 | The options become the defaults overridden by the caller's, never the previous ones. |
| CircularMenu.Controller.IsOpen | js/circular-menu.js:306 | An open menu implies a frozen icon and `detached`. |
| CircularMenu.Controller.GetState | js/circular-menu.js:307-310 | `detached` is reported true exactly when a frozen pair is reported, and the pair is the frozen one. |
| CircularMenu.Controller.CloseMenu | js/circular-menu.js:240-246 | Afterwards no menu is open. Root and backdrop leave `<body>`. With no menu, nothing changes, so closing twice is closing once. |
| CircularMenu.Controller.FreezeIcon | js/circular-menu.js:107-136 | No element: nothing changes. Otherwise a fresh clone of the element joins `<body>`, the original only gets `visibility: hidden`, and the (original, clone) pair is frozen and returned. |
| CircularMenu.Controller.Reattach | js/circular-menu.js:138-147 | Nothing frozen: nothing changes. Otherwise the original's visibility is cleared, the clone and any menu leave `<body>`, and the state is attached with no menu. |
| CircularMenu.Controller.BuildMenu | js/circular-menu.js:164-229 | A fresh menu showing the items on the ring around (cx, cy), with the options' radius, gap and z-index. Pre-existing elements are unchanged. |
| CircularMenu.Controller.OpenMenu | js/circular-menu.js:231-238 | Not detached: nothing changes. Otherwise any open menu is replaced by exactly one fresh menu of the current items around the clone's centre (`Center`, the default `anchor` of lines 39-42). |
| CircularMenu.Controller.UpdateItems | js/circular-menu.js:300-303 | The items are replaced. Only an open menu is rebuilt, with the new items; otherwise nothing else changes. |
| CircularMenu.Controller.OnBodyDblClick | js/circular-menu.js:249-256 | Attached with no followed icon: nothing changes. Attached with one: it is frozen, with a fresh clone and only its visibility changed, every other element stays as it was, and a menu of the items opens around the clone's centre. Already detached: nothing is frozen again, the menu is rebuilt, and elements that existed before stay as they were. |
| CircularMenu.Controller.OnBodyPointerDown | js/circular-menu.js:258-270 | Non-touch pointers change nothing. A double tap (`IsDoubleTap`, the test of lines 261-264: within the time and both distance tolerances) has exactly the effects of a double click, on the controller and on the document, and then zeroes only the last tap's time. Any other touch becomes the last tap and changes nothing else. |

## Left out

- Event wiring is not modelled. The handlers are methods called directly with event records. Not modelled:
  - listener registration and removal;
  - the `_wired` flag;
  - `preventDefault` and `stopPropagation`;
  - `setPointerCapture` and `releasePointerCapture`;
  - the `ready` helpers;
  - the `beforeunload` clean-up.
- A double click whose target is inside `.cmv2-root` is ignored by the listener (js/circular-menu.js:288). The model's OnBodyDblClick is the handler after that filter.
- Time is a parameter, not read: the animation frame's timestamp and `performance.now()`. The `requestAnimationFrame` loop (`ensureRAF`, `rafId`) is the caller's sequence of Animate calls. The `setTimeout` that later sets `display: none` on faded icons is not modelled.
- `init` and `updateItems` keep a reference to the caller's items array (js/circular-menu.js:280, 301). A later rebuild therefore shows any change the caller has since made to that array. The model's items are a `seq<Item>` value, so that aliasing is not modelled.
- The order of `<body>`'s children is not modelled: `body` is a set. Painting order, hit testing and stacking are therefore not modelled either. Between elements of equal z-index, that order decides stacking. In particular, while a menu is open its backdrop covers the viewport at z-index `themeZ - 1`. With the defaults that is 1000001, the clone's z-index for a followed icon. The backdrop joins `<body>` after the clone, so it paints above it, and a pointer-down there only closes the menu (js/circular-menu.js:171-172, 224). The model states what each handler does when called; it does not state which element a pointer reaches.
- Numbers are unbounded reals, not IEEE doubles.
  - `Math.PI * 2` is the real constant of its double value.
  - The ring's `Math.cos` and `Math.sin` stay symbolic: a button's `left` is `CosPx(cx, radius, turn)`, standing for cx + radius·cos(2π·turn).
  - Angles are stated in turns (the source's radians / 2π).
  - A spring step is exact real arithmetic; its convergence and overshoot are not stated.
- Presentation only, not modelled:
  - the style sheets (`ensureStyle`, `injectStyle`);
  - theme colours, font and shadow;
  - hover handlers.
  The `.cmv2-clone` rule matters for the clone's position and pointer events; it is reflected in CloneStyle (see Findings).
- The item buttons' `onSelect` callbacks are arbitrary user code, called with a context object. They are not modelled and are taken to leave the controller state unchanged.
- The `anchor` option is not modelled. The menu always opens at the default anchor, the centre of the clone's rectangle. That rectangle is the one the clone was pinned at.
- Merge: an option key the caller passes explicitly as `undefined` overrides the default with `undefined` in the source; the model's `None` is a key left out. A non-array `items` falls back to the defaults, as in the source; theme fields other than `zIndex` are not tracked.
- Discovery is not modelled; the controllers receive the icon candidates. This covers:
  - the icon selectors and `querySelectorAll`;
  - the first-non-empty-selector choice of icon-follow;
  - getActiveIcon's `flatMap`, which lists an element that matches two selectors twice.
- Candidate records already hold the parsed computed style: position, display, visibility, opacity above 0, and the z-index as an integer or none. `parseInt` of strings such as `5.5` is not modelled.
- `cloneNode(true)` copies the element's descendants. The model does not track the descendants of page elements, so its clone has no children. That is exact only for icons without children, such as an `<img>`.
- The pointer-down of a mouse falls back to the rectangle's centre when the event has no client position (js/icon-follow.js:198). Pointer events always carry one, so the model uses the event's.
- The follow controller with no icons on the page stops before defining its handlers. The model builds a controller over no icons, which can never have an active icon.

## Findings

| source | as written | input that shows it | evidently intended | confidence | as-written member | corrected member |
|---|---|---|---|---|---|---|
| js/circular-menu.js:120 | The clone's z-index is the max of 1000001 and parseInt of the original's computed z-index, plus 1. For a computed z-index of `auto` that is NaN, and assigning it leaves the clone without the intended z-index. | A position-fixed icon with computed z-index `auto` (and no inline one). | An unparsable z-index read as 0, as getActiveIcon does at line 70, giving z-index 1000001 above the original. | not executed | CircularMenu.CloneZAsWritten, CircularMenu.CloneAsWrittenCounterexample | CircularMenu.CloneZ |
| js/circular-menu.js:110-121 | The clone copies the followed icon's inline style. That includes the translate set by the spring (js/icon-follow.js:72, 183) and `pointer-events: none` (js/icon-follow.js:184). Both override the `.cmv2-clone` rule's `transform: none` and `pointer-events: auto` (js/circular-menu.js:80-83). The rectangle the clone is pinned at already includes the translation, so the clone shows displaced by the translation and does not receive the pointer-down that reattaches (lines 128-131). | An icon followed to rest 30 px right of where it was pinned: its rectangle's left is 100 (inline `left` 70 plus the 30 px translation), and its clone shows at 130, transparent to pointers. | The clone sits exactly over the original and takes pointer events, as the `.cmv2-clone` rule asks, so that a pointer-down on it reattaches the icon whenever no menu is open. | not executed | CircularMenu.CloneStyleAsWritten, CircularMenu.CloneAsWrittenKeepsFollowStyle, CircularMenu.CloneAsWrittenCounterexample | CircularMenu.CloneStyle |

The rest of the model (FinishClone, MakeClone, FreezeIcon) uses the corrected CloneZ and CloneStyle.
