# Sliding overlay visibility state machine

This project models `SlidingOverlay`, the panel of react-native-navigation's Android
side that slides in from the top of a parent `RelativeLayout` and notifies an optional
`SlidingListener` when it has been shown and when it is gone.

The overlay has four visibility states: `Hidden` (the initial one), `AnimateShow`,
`Shown` and `AnimateHide`. It moves between them on these events:

- the caller's `show()`, `hide()` and `setSlidingListener(l)`;
- the content view's one-shot display callback;
- the cancel and end callbacks of the animators it starts.

The model has two layers.

- `overlay_machine.dfy`, module `OverlayMachine`, holds the state machine on values.
  - An `Overlay` value records the overlay's own fields: its state and its listener.
  - It records the collaborators' state: whether the content view is in the parent,
    whether it is visible, and whether its render tree has been unmounted.
  - It records the callbacks the host may still deliver: a registered display
    callback, and the inward and outward animators started but not yet finished.
  - It keeps a log `calls` of every call the overlay made, in order: `addView`,
    `setVisibility(VISIBLE)`, `animate()`, `unmountReactView()`, `removeView`, and
    the two listener notifications.
  - `Step(s, e)` gives the effect of one event.
  - `Run(s, es)` runs a sequence of events.
  - `Consistent` is the invariant every reachable overlay keeps. The lemmas are
    about single steps, whole runs and concrete call sequences.
- `sliding_overlay.dfy`, module `SlidingOverlayView`, holds the class
  `SlidingOverlay`.
  - Its fields are updated in place by one method per entry point of the Java class.
  - Each method for a caller action or a host callback (`SetSlidingListener`, `Show`,
    `OnDisplay`, `Hide` and the four animator callbacks) says in its postcondition
    that its new state is `Step` of its old state. It also keeps `Valid()`, which is
    `Consistent` of the object's state.
  - The three queries change nothing; each returns the machine's query on the
    object's state.
  - The two shared handlers are specified by the machine's handler functions, not by
    `Step`, and promise nothing about `Valid()`. In the source they are `protected`
    (`SlidingOverlay.java:109`, `116`), so a subclass could call one directly. Called
    on its own, a handler can break the invariant: `ShownHandlerAloneBreaksInvariant`
    shows a new overlay reporting Shown with an invisible view.
  - The two terminal callbacks of each animator call the same helper, as the source
    does: `OnSlidingOverlayShown` on the inward side and `OnSlidingOverlayEnd` on the
    outward side.

Rules for the order in which the host delivers events (`Enabled`):

- The display callback fires only while it is registered and the view is in the
  parent. After it fires it is gone: it is one-shot.
- An animator's terminal callback (cancel or end) arrives only for an animator that
  was started. Each started animator delivers one of them.
- `show()` needs a view that is not already in the parent. `ViewGroup.addView`
  refuses a child that already has a parent, so this is the caller's duty.

`hide()` has no guard in the source, and none in the model. The lemmas
`HideBeforeShow` and `LateShowCompletion` record what such unguarded call orders do.
`ReshowAfterCycle` records what a second `show()` after a full cycle does.

Two points of the code's behaviour that are easy to get wrong:

- `show()` leaves the state unchanged. Only the display callback sets `AnimateShow`
  (`SlidingOverlay.java:57-64`), so `isShowing()` is false between `show()` and the
  first layout.
- Nothing guards the terminal handlers to run at most once per animation. Every
  terminal callback invocation runs the handler again and notifies the listener
  again. The model states this per invocation (`ShowCancelIsEnd`,
  `HideCancelIsEnd`, `NoticesPerCompletion`).

## Model

| member | source | states |
|---|---|---|
| `SlidingOverlayView.SlidingOverlay.constructor` | android/app/src/main/java/com/reactnativenavigation/views/slidingOverlay/SlidingOverlay.java:25-36 | A new overlay is Hidden, its view invisible and not in the parent, it has no listener and has made no call; it satisfies the invariant. |
| `SlidingOverlayView.SlidingOverlay.SetSlidingListener` | android/app/src/main/java/com/reactnativenavigation/views/slidingOverlay/SlidingOverlay.java:38-40 | The listener is replaced, and the state and the call log are left as they were, so nothing is replayed to the new listener. |
| `SlidingOverlayView.SlidingOverlay.Show` | android/app/src/main/java/com/reactnativenavigation/views/slidingOverlay/SlidingOverlay.java:42-65 | The view is added to the parent and the display callback is armed. The state and the view's visibility do not change. |
| `SlidingOverlayView.SlidingOverlay.OnDisplay` | android/app/src/main/java/com/reactnativenavigation/views/slidingOverlay/SlidingOverlay.java:57-64 | The view becomes visible and the state AnimateShow, and only then does one more inward animator start. The callback is disarmed. |
| `SlidingOverlayView.SlidingOverlay.OnShowAnimationCancel` | android/app/src/main/java/com/reactnativenavigation/views/slidingOverlay/SlidingOverlay.java:47-50 | One started inward animator finishes, and the shared shown-handler runs: the state becomes Shown. |
| `SlidingOverlayView.SlidingOverlay.OnShowAnimationEnd` | android/app/src/main/java/com/reactnativenavigation/views/slidingOverlay/SlidingOverlay.java:52-55 | Same effect as the cancel callback: one inward animator finishes and the state becomes Shown. |
| `SlidingOverlayView.SlidingOverlay.Hide` | android/app/src/main/java/com/reactnativenavigation/views/slidingOverlay/SlidingOverlay.java:67-83 | The state becomes AnimateHide at once and an outward animator starts. Whether the view is in the parent does not change. |
| `SlidingOverlayView.SlidingOverlay.OnHideAnimationCancel` | android/app/src/main/java/com/reactnativenavigation/views/slidingOverlay/SlidingOverlay.java:70-73 | One outward animator finishes, and the shared end-handler runs: the state becomes Hidden, and the view is unmounted and out of the parent. |
| `SlidingOverlayView.SlidingOverlay.OnHideAnimationEnd` | android/app/src/main/java/com/reactnativenavigation/views/slidingOverlay/SlidingOverlay.java:75-78 | Same effect as the cancel callback on the hide side. |
| `SlidingOverlayView.SlidingOverlay.IsShowing` | android/app/src/main/java/com/reactnativenavigation/views/slidingOverlay/SlidingOverlay.java:85-87 | True exactly when the state is AnimateShow; nothing changes. |
| `SlidingOverlayView.SlidingOverlay.IsVisible` | android/app/src/main/java/com/reactnativenavigation/views/slidingOverlay/SlidingOverlay.java:89-91 | True exactly when the state is Shown; nothing changes. |
| `SlidingOverlayView.SlidingOverlay.IsHiding` | android/app/src/main/java/com/reactnativenavigation/views/slidingOverlay/SlidingOverlay.java:93-95 | True exactly when the state is AnimateHide; nothing changes. |
| `SlidingOverlayView.SlidingOverlay.OnSlidingOverlayShown` | android/app/src/main/java/com/reactnativenavigation/views/slidingOverlay/SlidingOverlay.java:109-114 | The state becomes Shown. A registered listener is sent one shown notice; a null listener is sent nothing. |
| `SlidingOverlayView.SlidingOverlay.OnSlidingOverlayEnd` | android/app/src/main/java/com/reactnativenavigation/views/slidingOverlay/SlidingOverlay.java:116-124 | The state becomes Hidden. The view is unmounted, then removed from the parent. A registered listener is then sent one gone notice. |
| `OverlayMachine.StepConsistent` | android/app/src/main/java/com/reactnativenavigation/views/slidingOverlay/SlidingOverlay.java:38-124 | Every event the host can deliver keeps the invariant: flags agree with the log, animating states have an animator due, the view is visible before it is animated in, and unmount is followed by removeView. |
| `OverlayMachine.RunConsistent` | android/app/src/main/java/com/reactnativenavigation/views/slidingOverlay/SlidingOverlay.java:38-124 | Every admissible sequence of events keeps the invariant. |
| `OverlayMachine.QueriesExclusive` | android/app/src/main/java/com/reactnativenavigation/views/slidingOverlay/SlidingOverlay.java:85-95 | In every overlay at most one of isShowing, isVisible and isHiding holds, and all three are false exactly in Hidden. |
| `OverlayMachine.ReachableQueries` | android/app/src/main/java/com/reactnativenavigation/views/slidingOverlay/SlidingOverlay.java:16-18 | What reachability adds: in every reachable overlay, showing or shown implies the view is visible, and each animating state has an animator of its direction still to finish. |
| `OverlayMachine.ShownHandlerAloneBreaksInvariant` | android/app/src/main/java/com/reactnativenavigation/views/slidingOverlay/SlidingOverlay.java:109-114 | The shown-handler called on its own, on a new overlay, reports Shown while the view was never made visible, which breaks the invariant. |
| `OverlayMachine.ReachableOrdering` | android/app/src/main/java/com/reactnativenavigation/views/slidingOverlay/SlidingOverlay.java:57-64 | In every reachable overlay the view was made visible right before each inward animation started, and removed from the parent right after each unmount. It is visible only if the display callback made it so, and it is in the parent exactly when the last addView/removeView was an addView. |
| `OverlayMachine.ShowKeepsStateAndVisibility` | android/app/src/main/java/com/reactnativenavigation/views/slidingOverlay/SlidingOverlay.java:42-43 | show() keeps the state and the view's visibility, puts the view in the parent and arms the display callback. It makes exactly one call: addView. |
| `OverlayMachine.DisplayStartsInwardAnimation` | android/app/src/main/java/com/reactnativenavigation/views/slidingOverlay/SlidingOverlay.java:60-62 | The display callback leaves the view visible and isShowing() true. The callback is disarmed and one inward animator more is running. It calls setVisibility before animate. |
| `OverlayMachine.ShowCancelIsEnd` | android/app/src/main/java/com/reactnativenavigation/views/slidingOverlay/SlidingOverlay.java:48-54 | On the show side, cancel and end lead to the same overlay. The state becomes Shown, one inward animator finishes, and the log gains exactly the shown notice for a registered listener and nothing for a null one. Nothing else changes: attachment, visibility, mount, listener and display callback stay as they were. |
| `OverlayMachine.HideIsImmediate` | android/app/src/main/java/com/reactnativenavigation/views/slidingOverlay/SlidingOverlay.java:67-83 | hide() enters AnimateHide at once, with no display callback to wait for, and starts one outward animator. It leaves the view's place in the parent and its mount as they were. |
| `OverlayMachine.HideCancelIsEnd` | android/app/src/main/java/com/reactnativenavigation/views/slidingOverlay/SlidingOverlay.java:70-78 | On the hide side, cancel and end lead to the same overlay. The state becomes Hidden and the view is unmounted and out of the parent. The calls added are unmount, removeView and one gone notice if a listener is registered. |
| `OverlayMachine.StepExtendsLog` | android/app/src/main/java/com/reactnativenavigation/views/slidingOverlay/SlidingOverlay.java:109-124 | An event other than a listener change keeps the listener and only appends to the log. Any notice it appends goes to the current listener. |
| `OverlayMachine.OnlyCurrentListenerNotified` | android/app/src/main/java/com/reactnativenavigation/views/slidingOverlay/SlidingOverlay.java:111-113 | While the listener is not replaced, the log only grows, and every notice added goes to the listener registered at the start. A null listener is sent nothing. |
| `OverlayMachine.StepNotices` | android/app/src/main/java/com/reactnativenavigation/views/slidingOverlay/SlidingOverlay.java:109-124 | One event adds one shown notice if it is an inward terminal callback and one gone notice if it is an outward one, provided a listener is registered. Otherwise it adds none. |
| `OverlayMachine.NoticesPerCompletion` | android/app/src/main/java/com/reactnativenavigation/views/slidingOverlay/SlidingOverlay.java:46-56 | While the listener is not replaced, a registered listener gets exactly one notice per terminal callback invocation of the matching direction. A null listener gets none. |
| `OverlayMachine.LastListenerWins` | android/app/src/main/java/com/reactnativenavigation/views/slidingOverlay/SlidingOverlay.java:38-40 | After setSlidingListener(l), earlier calls are unchanged and nothing is replayed. Up to the next registration every notice goes to l alone, one per terminal callback. |
| `OverlayMachine.ShowSequence` | android/app/src/main/java/com/reactnativenavigation/views/slidingOverlay/SlidingOverlay.java:42-65 | show(), then the display callback, then cancel or end, leave the overlay Shown with its view visible in the parent. Cancel and end give the same overlay. The listener heard exactly once. |
| `OverlayMachine.ShowHideCycle` | android/app/src/main/java/com/reactnativenavigation/views/slidingOverlay/SlidingOverlay.java:42-124 | A whole show/hide cycle, with cancel or end on each side, ends Hidden and out of the parent. The view was added, shown, unmounted and removed once each, and the listener heard shown once and gone once. |
| `OverlayMachine.HideBeforeShow` | android/app/src/main/java/com/reactnativenavigation/views/slidingOverlay/SlidingOverlay.java:67-83 | hide() on a never-shown overlay still enters AnimateHide. Its end unmounts and removes a view that was never added, and reports gone. |
| `OverlayMachine.LateShowCompletion` | android/app/src/main/java/com/reactnativenavigation/views/slidingOverlay/SlidingOverlay.java:109-110 | Suppose hide() is called during the inward animation and the inward end arrives after the outward end. The overlay then reports isVisible() although its view is out of the parent. |
| `OverlayMachine.ReshowAfterCycle` | android/app/src/main/java/com/reactnativenavigation/views/slidingOverlay/SlidingOverlay.java:105-124 | Nothing makes the view invisible or mounted again. A second show() after a full cycle adds a view that is already visible and already unmounted. |

## Left out

- The overlay's height, 100 dp converted to pixels and cast to `int`
  (`SlidingOverlay.java:98-100`), is not modelled. It is floating point over device
  metrics and does not affect the state machine.
- The layout rules and the construction of the `ContentView` from the parent's
  context, screen id and navigation parameters (`SlidingOverlay.java:100-104`) are
  Android framework calls. The model keeps only their outcome: the view starts
  invisible and outside the parent.
- `PeekingAnimator` is not part of this model. A started animator is represented
  only by a pending terminal callback of its direction. Each started animator
  delivers one cancel or one end.
- Android's `Animator.cancel()` delivers `onAnimationEnd` right after
  `onAnimationCancel`, so one cancelled animator invokes the handler twice. The model
  does not represent that pairing. Its per-invocation lemmas still say what each
  invocation does.
- `ContentView.unmountReactView()` and the parent's real view tree are foreign code.
  They are represented by the `unmounted` and `attached` flags and by the call log.
- Listener objects are represented by identities, with `None` for null. The overlay
  holds an ordinary strong reference to its listener (`SlidingOverlay.java:24`), and
  the model keeps that identity until it is replaced, so nothing about the reference
  is left out.
- The UI-thread event loop and the scheduling of callbacks are not modelled. Each
  callback is one atomic call.
- A second `show()` while the view is in the parent makes `addView` throw. The model
  excludes this call by the precondition of `Show` and does not model the exception.
