/** The visibility state machine of one sliding overlay panel, stated on values.

    An `Overlay` value holds the overlay's own fields (its visibility state and its
    listener), the state of the collaborators it drives (whether its content view is
    in the parent, visible, unmounted), the events the host may still deliver (a
    registered display callback, started animators), and the log of every call the
    overlay has made on a collaborator or on its listener, in order.
 */
module OverlayMachine {

  datatype Option<T> = None | Some(value: T)

  /** The four states of the overlay. */
  datatype VisibilityState = Hidden | AnimateHide | Shown | AnimateShow

  /** The identity of a registered listener object; `None` stands for a null listener. */
  type ListenerId = nat

  /** A call the overlay makes on a collaborator or on its listener. */
  datatype Call =
    | AddView                     // the content view is added to the parent
    | MakeVisible                 // the content view is made visible
    | Animate(inward: bool)       // an animator of that direction is started
    | Unmount                     // the content view's render tree is torn down
    | RemoveView                  // the content view is removed from the parent
    | NotifyShown(to: ListenerId) // the listener hears that the overlay is shown
    | NotifyGone(to: ListenerId)  // the listener hears that the overlay is gone

  datatype Overlay = Overlay(
    state: VisibilityState,
    listener: Option<ListenerId>,
    attached: bool,        // the content view is a child of the parent
    visible: bool,         // the content view is visible
    unmounted: bool,       // the content view's render tree has been torn down
    displayPending: bool,  // a display callback is registered and has not fired
    runningShow: nat,      // inward animators started whose terminal callback is due
    runningHide: nat,      // outward animators started whose terminal callback is due
    calls: seq<Call>)

  /** What can happen to an overlay: a caller's action or a host callback. */
  datatype Event =
    | CallSetListener(l: Option<ListenerId>)
    | CallShow
    | DisplayFired
    | ShowAnimCancelled
    | ShowAnimEnded
    | CallHide
    | HideAnimCancelled
    | HideAnimEnded

  /** A freshly constructed overlay: hidden, its view built invisible and not yet added. */
  function Init(): Overlay {
    Overlay(Hidden, None, false, false, false, false, 0, 0, [])
  }

  predicate IsShowing(s: Overlay) { s.state == AnimateShow }
  predicate IsVisible(s: Overlay) { s.state == Shown }
  predicate IsHiding(s: Overlay) { s.state == AnimateHide }

  function ShownNotice(l: Option<ListenerId>): seq<Call> {
    if l.Some? then [NotifyShown(l.value)] else []
  }

  function GoneNotice(l: Option<ListenerId>): seq<Call> {
    if l.Some? then [NotifyGone(l.value)] else []
  }

  /** Registering a listener replaces the earlier one; nothing is delivered to it. */
  function SetSlidingListener(s: Overlay, l: Option<ListenerId>): Overlay {
    s.(listener := l)
  }

  /** Adds the view to the parent and registers the display callback; the inward
      animator is created but not started. */
  function Show(s: Overlay): Overlay {
    s.(attached := true, displayPending := true, calls := s.calls + [AddView])
  }

  /** The display callback: the view becomes visible and the state AnimateShow, and
      only then is the inward animator started. The callback fires once. */
  function OnDisplay(s: Overlay): Overlay {
    s.(displayPending := false, visible := true, state := AnimateShow,
       runningShow := s.runningShow + 1,
       calls := s.calls + [MakeVisible] + [Animate(true)])
  }

  /** The handler both terminal callbacks of an inward animator run. */
  function OnSlidingOverlayShown(s: Overlay): Overlay {
    s.(state := Shown, calls := s.calls + ShownNotice(s.listener))
  }

  /** Switches to AnimateHide at once and starts an outward animator. */
  function Hide(s: Overlay): Overlay {
    s.(state := AnimateHide, runningHide := s.runningHide + 1,
       calls := s.calls + [Animate(false)])
  }

  /** The handler both terminal callbacks of an outward animator run. */
  function OnSlidingOverlayEnd(s: Overlay): Overlay {
    s.(state := Hidden, unmounted := true, attached := false,
       calls := s.calls + [Unmount] + [RemoveView] + GoneNotice(s.listener))
  }

  /** When the host can deliver an event. A view already in a parent cannot be added
      again; the display callback needs a registered callback and an attached view;
      a terminal callback needs a started animator of its direction. */
  predicate Enabled(s: Overlay, e: Event) {
    match e
    case CallShow => !s.attached
    case DisplayFired => s.attached && s.displayPending
    case ShowAnimCancelled => s.runningShow > 0
    case ShowAnimEnded => s.runningShow > 0
    case HideAnimCancelled => s.runningHide > 0
    case HideAnimEnded => s.runningHide > 0
    case _ => true
  }

  function Step(s: Overlay, e: Event): Overlay
    requires Enabled(s, e)
  {
    match e
    case CallSetListener(l) => SetSlidingListener(s, l)
    case CallShow => Show(s)
    case DisplayFired => OnDisplay(s)
    case ShowAnimCancelled => OnSlidingOverlayShown(s.(runningShow := s.runningShow - 1))
    case ShowAnimEnded => OnSlidingOverlayShown(s.(runningShow := s.runningShow - 1))
    case CallHide => Hide(s)
    case HideAnimCancelled => OnSlidingOverlayEnd(s.(runningHide := s.runningHide - 1))
    case HideAnimEnded => OnSlidingOverlayEnd(s.(runningHide := s.runningHide - 1))
  }

  /** The events can be delivered one after the other, starting in `s`. */
  predicate Admissible(s: Overlay, es: seq<Event>)
    decreases |es|
  {
    es == [] || (Enabled(s, es[0]) && Admissible(Step(s, es[0]), es[1..]))
  }

  function Run(s: Overlay, es: seq<Event>): Overlay
    requires Admissible(s, es)
    decreases |es|
  {
    if es == [] then s else Run(Step(s, es[0]), es[1..])
  }

  // ---------------------------------------------------------------------------
  // The log of calls

  /** Whether the last addView/removeView in the log was an addView. */
  function Attached(cs: seq<Call>): bool
    decreases |cs|
  {
    if cs == [] then false
    else if cs[|cs| - 1] == AddView then true
    else if cs[|cs| - 1] == RemoveView then false
    else Attached(cs[..|cs| - 1])
  }

  function ShownNotices(cs: seq<Call>): nat
    decreases |cs|
  {
    if cs == [] then 0
    else ShownNotices(cs[..|cs| - 1]) + (if cs[|cs| - 1].NotifyShown? then 1 else 0)
  }

  function GoneNotices(cs: seq<Call>): nat
    decreases |cs|
  {
    if cs == [] then 0
    else GoneNotices(cs[..|cs| - 1]) + (if cs[|cs| - 1].NotifyGone? then 1 else 0)
  }

  predicate IsNotice(c: Call) { c.NotifyShown? || c.NotifyGone? }

  /** The view is made visible right before every inward animation starts, and
      removed from the parent right after every unmount. */
  ghost predicate OrderedLog(cs: seq<Call>) {
    && (forall i :: 0 <= i < |cs| && cs[i] == Animate(true) ==> 0 < i && cs[i - 1] == MakeVisible)
    && (forall i :: 0 <= i < |cs| && cs[i] == Unmount ==> i + 1 < |cs| && cs[i + 1] == RemoveView)
  }

  /** One more call at the end of the log. */
  lemma LogSnoc(cs: seq<Call>, c: Call)
    ensures Attached(cs + [c]) ==
            if c == AddView then true else if c == RemoveView then false else Attached(cs)
    ensures ShownNotices(cs + [c]) == ShownNotices(cs) + (if c.NotifyShown? then 1 else 0)
    ensures GoneNotices(cs + [c]) == GoneNotices(cs) + (if c.NotifyGone? then 1 else 0)
    ensures OrderedLog(cs) && c != Unmount &&
            (c == Animate(true) ==> |cs| > 0 && cs[|cs| - 1] == MakeVisible)
            ==> OrderedLog(cs + [c])
  {
  }

  /** The log after a notice that may or may not be sent. */
  lemma NoticeSnoc(cs: seq<Call>, n: seq<Call>, l: Option<ListenerId>, shown: bool)
    requires n == if shown then ShownNotice(l) else GoneNotice(l)
    ensures Attached(cs + n) == Attached(cs)
    ensures ShownNotices(cs + n) == ShownNotices(cs) + (if shown && l.Some? then 1 else 0)
    ensures GoneNotices(cs + n) == GoneNotices(cs) + (if !shown && l.Some? then 1 else 0)
    ensures OrderedLog(cs) ==> OrderedLog(cs + n)
    ensures forall c :: c in cs + n && !IsNotice(c) ==> c in cs
  {
    if l.Some? {
      LogSnoc(cs, n[0]);
      assert cs + n == cs + [n[0]];
    } else {
      assert cs + n == cs;
    }
  }

  // ---------------------------------------------------------------------------
  // The invariant of every reachable overlay

  /** The parent/view flags agree with the calls made on the parent and the view. */
  ghost predicate FlagsAgree(s: Overlay) {
    && s.attached == Attached(s.calls)
    && (s.visible <==> MakeVisible in s.calls)
    && (s.unmounted <==> Unmount in s.calls)
  }

  /** An animating state always has an animator of its direction still due, and the
      view is visible whenever an inward animator runs or the overlay is shown. */
  ghost predicate AnimatorsDue(s: Overlay) {
    && (s.state == AnimateShow ==> s.runningShow > 0)
    && (s.state == AnimateHide ==> s.runningHide > 0)
    && (s.runningShow > 0 ==> s.visible)
    && (s.state == Shown ==> s.visible)
  }

  ghost predicate Consistent(s: Overlay) {
    FlagsAgree(s) && AnimatorsDue(s) && OrderedLog(s.calls)
  }

  lemma InitConsistent()
    ensures Consistent(Init())
  {
  }

  lemma {:induction false} StepConsistent(s: Overlay, e: Event)
    requires Consistent(s) && Enabled(s, e)
    ensures Consistent(Step(s, e))
  {
    match e
    case CallSetListener(l) =>
    case CallShow =>
      ShowStepConsistent(s);
    case DisplayFired =>
      DisplayStepConsistent(s);
    case ShowAnimCancelled =>
      ShownStepConsistent(s);
    case ShowAnimEnded =>
      ShownStepConsistent(s);
    case CallHide =>
      HideStepConsistent(s);
    case HideAnimCancelled =>
      EndStepConsistent(s);
    case HideAnimEnded =>
      EndStepConsistent(s);
  }

  lemma ShowStepConsistent(s: Overlay)
    requires Consistent(s) && !s.attached
    ensures Consistent(Show(s))
  {
  }

  lemma DisplayStepConsistent(s: Overlay)
    requires Consistent(s)
    ensures Consistent(OnDisplay(s))
  {
  }

  lemma HideStepConsistent(s: Overlay)
    requires Consistent(s)
    ensures Consistent(Hide(s))
  {
  }

  lemma ShownStepConsistent(s: Overlay)
    requires Consistent(s) && s.runningShow > 0
    ensures Consistent(Step(s, ShowAnimEnded))
    ensures Step(s, ShowAnimCancelled) == Step(s, ShowAnimEnded)
  {
    NoticeSnoc(s.calls, ShownNotice(s.listener), s.listener, true);
  }

  lemma EndStepConsistent(s: Overlay)
    requires Consistent(s) && s.runningHide > 0
    ensures Consistent(Step(s, HideAnimEnded))
    ensures Step(s, HideAnimCancelled) == Step(s, HideAnimEnded)
  {
    var c := s.calls;
    var c2 := c + [Unmount] + [RemoveView];
    LogSnoc(c, Unmount);
    LogSnoc(c + [Unmount], RemoveView);
    UnmountRemoveOrdered(c);
    NoticeSnoc(c2, GoneNotice(s.listener), s.listener, false);
  }

  /** Unmounting and then removing the view keeps the log ordered. */
  lemma UnmountRemoveOrdered(cs: seq<Call>)
    requires OrderedLog(cs)
    ensures OrderedLog(cs + [Unmount] + [RemoveView])
  {
  }

  /** The shown-handler on its own, outside an inward animator's terminal callback,
      can break the invariant: run on a new overlay it reports Shown while the view
      was never made visible. */
  lemma ShownHandlerAloneBreaksInvariant()
    ensures Consistent(Init())
    ensures var t := OnSlidingOverlayShown(Init());
      IsVisible(t) && !t.visible && !Consistent(t)
  {
  }

  /** Every run of admissible events keeps the invariant. */
  lemma {:induction false} RunConsistent(s: Overlay, es: seq<Event>)
    requires Consistent(s) && Admissible(s, es)
    ensures Consistent(Run(s, es))
    decreases |es|
  {
    if es != [] {
      StepConsistent(s, es[0]);
      RunConsistent(Step(s, es[0]), es[1..]);
    }
  }

  /** In every overlay at most one of the three queries holds, and all three fail
      exactly in Hidden. */
  lemma QueriesExclusive(s: Overlay)
    ensures !(IsShowing(s) && IsVisible(s))
    ensures !(IsShowing(s) && IsHiding(s))
    ensures !(IsVisible(s) && IsHiding(s))
    ensures (!IsShowing(s) && !IsVisible(s) && !IsHiding(s)) <==> s.state == Hidden
  {
  }

  /** What reachability from construction adds to the queries: the view is visible
      whenever the overlay is showing or shown, and an animating state always has
      an animator of its direction still to deliver its terminal callback. */
  lemma ReachableQueries(es: seq<Event>)
    requires Admissible(Init(), es)
    ensures var s := Run(Init(), es);
      && (IsShowing(s) || IsVisible(s) ==> s.visible)
      && (IsShowing(s) ==> s.runningShow > 0)
      && (IsHiding(s) ==> s.runningHide > 0)
  {
    InitConsistent();
    RunConsistent(Init(), es);
  }

  /** In every reachable overlay the log shows the view made visible right before each
      inward animation starts, and unmounted right before each removal from the
      parent; the view is visible only if the display callback has fired, and in the
      parent exactly when the last addView/removeView was an addView. */
  lemma ReachableOrdering(es: seq<Event>)
    requires Admissible(Init(), es)
    ensures var s := Run(Init(), es);
      && (s.visible ==> MakeVisible in s.calls)
      && (forall i :: 0 <= i < |s.calls| && s.calls[i] == Animate(true) ==>
            0 < i && s.calls[i - 1] == MakeVisible)
      && (forall i :: 0 <= i < |s.calls| && s.calls[i] == Unmount ==>
            i + 1 < |s.calls| && s.calls[i + 1] == RemoveView)
      && s.attached == Attached(s.calls)
  {
    InitConsistent();
    RunConsistent(Init(), es);
  }

  // ---------------------------------------------------------------------------
  // Single events

  /** show() adds the view to the parent and arms the display callback, but touches
      neither the state nor the view's visibility. */
  lemma ShowKeepsStateAndVisibility(s: Overlay)
    requires Enabled(s, CallShow)
    ensures var t := Step(s, CallShow);
      && t.state == s.state && t.visible == s.visible
      && t.attached && Attached(t.calls) && t.displayPending
      && t.calls == s.calls + [AddView]
  {
  }

  /** The display callback makes the view visible and enters AnimateShow before it
      starts the inward animator, which then runs with isShowing() true. */
  lemma DisplayStartsInwardAnimation(s: Overlay)
    requires Enabled(s, DisplayFired)
    ensures var t := Step(s, DisplayFired);
      && t.visible && IsShowing(t) && !t.displayPending
      && t.runningShow == s.runningShow + 1
      && t.calls == s.calls + [MakeVisible, Animate(true)]
  {
  }

  /** Both terminal callbacks of an inward animator have the same effect: the state
      becomes Shown and a registered listener hears once that the overlay is shown. */
  lemma ShowCancelIsEnd(s: Overlay)
    requires s.runningShow > 0
    ensures Step(s, ShowAnimCancelled) == Step(s, ShowAnimEnded)
    ensures IsVisible(Step(s, ShowAnimEnded))
    ensures ShownNotices(Step(s, ShowAnimEnded).calls) ==
            ShownNotices(s.calls) + (if s.listener.Some? then 1 else 0)
    ensures s.listener.None? ==> Step(s, ShowAnimEnded).calls == s.calls
    ensures var t := Step(s, ShowAnimEnded);
      && t.calls == s.calls + ShownNotice(s.listener)
      && t.attached == s.attached && t.visible == s.visible && t.unmounted == s.unmounted
      && t.listener == s.listener && t.displayPending == s.displayPending
      && t.runningShow == s.runningShow - 1 && t.runningHide == s.runningHide
  {
    NoticeSnoc(s.calls, ShownNotice(s.listener), s.listener, true);
  }

  /** hide() enters AnimateHide at once, with no display callback to wait for, and
      leaves the view in the parent until the outward animator completes. */
  lemma HideIsImmediate(s: Overlay)
    ensures var t := Step(s, CallHide);
      && IsHiding(t) && t.attached == s.attached && t.unmounted == s.unmounted
      && t.runningHide == s.runningHide + 1
      && t.calls == s.calls + [Animate(false)]
  {
  }

  /** Both terminal callbacks of an outward animator have the same effect: the state
      becomes Hidden, the view is unmounted and then removed from the parent, and a
      registered listener hears once that the overlay is gone. */
  lemma HideCancelIsEnd(s: Overlay)
    requires s.runningHide > 0
    ensures Step(s, HideAnimCancelled) == Step(s, HideAnimEnded)
    ensures var t := Step(s, HideAnimEnded);
      && t.state == Hidden && !t.attached && t.unmounted && !Attached(t.calls)
      && t.calls == s.calls + [Unmount, RemoveView] + GoneNotice(s.listener)
      && GoneNotices(t.calls) == GoneNotices(s.calls) + (if s.listener.Some? then 1 else 0)
  {
    var c := s.calls;
    LogSnoc(c, Unmount);
    LogSnoc(c + [Unmount], RemoveView);
    assert c + [Unmount, RemoveView] == c + [Unmount] + [RemoveView];
    NoticeSnoc(c + [Unmount] + [RemoveView], GoneNotice(s.listener), s.listener, false);
  }

  // ---------------------------------------------------------------------------
  // The listener

  predicate KeepsListener(es: seq<Event>) {
    forall i :: 0 <= i < |es| ==> !es[i].CallSetListener?
  }

  function ShowCompletions(es: seq<Event>): nat
    decreases |es|
  {
    if es == [] then 0
    else (if es[0] == ShowAnimCancelled || es[0] == ShowAnimEnded then 1 else 0)
         + ShowCompletions(es[1..])
  }

  function HideCompletions(es: seq<Event>): nat
    decreases |es|
  {
    if es == [] then 0
    else (if es[0] == HideAnimCancelled || es[0] == HideAnimEnded then 1 else 0)
         + HideCompletions(es[1..])
  }

  /** One event other than a listener change keeps the listener, only appends to the
      log, and every notice it appends goes to the current listener. */
  lemma StepExtendsLog(s: Overlay, e: Event)
    requires Enabled(s, e) && !e.CallSetListener?
    ensures var t := Step(s, e);
      && t.listener == s.listener
      && |s.calls| <= |t.calls| && t.calls[..|s.calls|] == s.calls
      && (forall i :: |s.calls| <= i < |t.calls| && IsNotice(t.calls[i]) ==>
            s.listener == Some(t.calls[i].to))
  {
  }

  /** While the listener is not replaced, the log only grows, and everything the run
      adds to it that is a notice goes to the listener registered at its start. A null
      listener is sent nothing. */
  lemma {:induction false} OnlyCurrentListenerNotified(s: Overlay, es: seq<Event>)
    requires Admissible(s, es) && KeepsListener(es)
    ensures Run(s, es).listener == s.listener
    ensures |s.calls| <= |Run(s, es).calls| && Run(s, es).calls[..|s.calls|] == s.calls
    ensures forall i :: |s.calls| <= i < |Run(s, es).calls| && IsNotice(Run(s, es).calls[i]) ==>
              s.listener == Some(Run(s, es).calls[i].to)
    decreases |es|
  {
    if es != [] {
      var t := Step(s, es[0]);
      assert !es[0].CallSetListener?;
      StepExtendsLog(s, es[0]);
      assert KeepsListener(es[1..]) by {
        forall i | 0 <= i < |es[1..]| ensures !es[1..][i].CallSetListener? {
          assert es[1..][i] == es[i + 1];
        }
      }
      OnlyCurrentListenerNotified(t, es[1..]);
      var r := Run(s, es);
      assert r == Run(t, es[1..]);
      assert r.calls[..|s.calls|] == r.calls[..|t.calls|][..|s.calls|];
      forall i | |s.calls| <= i < |r.calls| && IsNotice(r.calls[i])
        ensures s.listener == Some(r.calls[i].to)
      {
        if i < |t.calls| {
          assert r.calls[i] == r.calls[..|t.calls|][i];
        }
      }
    }
  }

  /** While the listener is not replaced, a registered listener hears exactly one
      notice per terminal animator callback of the matching direction, and a null
      listener hears none. */
  lemma {:induction false} NoticesPerCompletion(s: Overlay, es: seq<Event>)
    requires Admissible(s, es) && KeepsListener(es)
    ensures ShownNotices(Run(s, es).calls) ==
            ShownNotices(s.calls) + (if s.listener.Some? then ShowCompletions(es) else 0)
    ensures GoneNotices(Run(s, es).calls) ==
            GoneNotices(s.calls) + (if s.listener.Some? then HideCompletions(es) else 0)
    decreases |es|
  {
    if es != [] {
      var e := es[0];
      var t := Step(s, e);
      assert KeepsListener(es[1..]) by {
        forall i | 0 <= i < |es[1..]| ensures !es[1..][i].CallSetListener? {
          assert es[1..][i] == es[i + 1];
        }
      }
      StepNotices(s, e);
      NoticesPerCompletion(t, es[1..]);
    }
  }

  /** The notices one event adds to the log. */
  lemma StepNotices(s: Overlay, e: Event)
    requires Enabled(s, e) && !e.CallSetListener?
    ensures Step(s, e).listener == s.listener
    ensures ShownNotices(Step(s, e).calls) == ShownNotices(s.calls) +
              (if s.listener.Some? && (e == ShowAnimCancelled || e == ShowAnimEnded) then 1 else 0)
    ensures GoneNotices(Step(s, e).calls) == GoneNotices(s.calls) +
              (if s.listener.Some? && (e == HideAnimCancelled || e == HideAnimEnded) then 1 else 0)
  {
    var c := s.calls;
    match e
    case CallShow => LogSnoc(c, AddView);
    case DisplayFired =>
      LogSnoc(c, MakeVisible);
      LogSnoc(c + [MakeVisible], Animate(true));
    case ShowAnimCancelled => NoticeSnoc(c, ShownNotice(s.listener), s.listener, true);
    case ShowAnimEnded => NoticeSnoc(c, ShownNotice(s.listener), s.listener, true);
    case CallHide => LogSnoc(c, Animate(false));
    case HideAnimCancelled => EndNotices(s);
    case HideAnimEnded => EndNotices(s);
  }

  lemma EndNotices(s: Overlay)
    ensures ShownNotices(OnSlidingOverlayEnd(s).calls) == ShownNotices(s.calls)
    ensures GoneNotices(OnSlidingOverlayEnd(s).calls) ==
            GoneNotices(s.calls) + (if s.listener.Some? then 1 else 0)
  {
    var c := s.calls;
    LogSnoc(c, Unmount);
    LogSnoc(c + [Unmount], RemoveView);
    NoticeSnoc(c + [Unmount] + [RemoveView], GoneNotice(s.listener), s.listener, false);
  }

  /** The last registered listener wins: registering `l` replays nothing to it, and
      every later notice, up to the next registration, goes to `l` alone. */
  lemma LastListenerWins(s: Overlay, l: Option<ListenerId>, es: seq<Event>)
    requires Admissible(s, [CallSetListener(l)] + es) && KeepsListener(es)
    ensures var r := Run(s, [CallSetListener(l)] + es);
      && r.listener == l
      && |s.calls| <= |r.calls| && r.calls[..|s.calls|] == s.calls
      && (forall i :: |s.calls| <= i < |r.calls| && IsNotice(r.calls[i]) ==> l == Some(r.calls[i].to))
      && ShownNotices(r.calls) == ShownNotices(s.calls) + (if l.Some? then ShowCompletions(es) else 0)
      && GoneNotices(r.calls) == GoneNotices(s.calls) + (if l.Some? then HideCompletions(es) else 0)
  {
    var t := SetSlidingListener(s, l);
    assert ([CallSetListener(l)] + es)[1..] == es;
    OnlyCurrentListenerNotified(t, es);
    NoticesPerCompletion(t, es);
  }

  // ---------------------------------------------------------------------------
  // Whole call sequences

  /** Running a sequence is running its first event and then the rest. */
  lemma RunCons(s: Overlay, e: Event, es: seq<Event>)
    requires Enabled(s, e) && Admissible(Step(s, e), es)
    ensures Admissible(s, [e] + es) && Run(s, [e] + es) == Run(Step(s, e), es)
  {
  }

  function ShowTerminal(cancelled: bool): Event {
    if cancelled then ShowAnimCancelled else ShowAnimEnded
  }

  function HideTerminal(cancelled: bool): Event {
    if cancelled then HideAnimCancelled else HideAnimEnded
  }

  /** show(), the display callback and either terminal callback: the overlay is Shown,
      its view visible in the parent, and a registered listener heard exactly once;
      cancel and end lead to the same overlay. */
  lemma ShowSequence(l: Option<ListenerId>, cancelled: bool)
    ensures var s0 := SetSlidingListener(Init(), l);
      && Admissible(s0, [CallShow, DisplayFired, ShowTerminal(cancelled)])
      && Run(s0, [CallShow, DisplayFired, ShowTerminal(cancelled)]) ==
         Run(s0, [CallShow, DisplayFired, ShowAnimEnded])
      && var s := Run(s0, [CallShow, DisplayFired, ShowAnimEnded]);
      && IsVisible(s) && s.visible && s.attached && !s.unmounted
      && s.calls == [AddView, MakeVisible, Animate(true)] + ShownNotice(l)
  {
    var s0 := SetSlidingListener(Init(), l);
    var s1 := Step(s0, CallShow);
    var s2 := Step(s1, DisplayFired);
    ShowCancelIsEnd(s2);
    forall t: Event | t == ShowTerminal(cancelled) || t == ShowAnimEnded
      ensures Admissible(s0, [CallShow, DisplayFired, t])
      ensures Run(s0, [CallShow, DisplayFired, t]) == Step(s2, ShowAnimEnded)
    {
      RunCons(s2, t, []);
      RunCons(s1, DisplayFired, [t]);
      RunCons(s0, CallShow, [DisplayFired] + [t]);
      assert [CallShow] + ([DisplayFired] + [t]) == [CallShow, DisplayFired, t];
    }
    assert s2.calls == [AddView, MakeVisible, Animate(true)];
  }

  /** A whole show/hide cycle from construction, with either terminal callback on each
      side: the overlay ends Hidden, the view was added once, made visible once,
      unmounted once and removed once, and a registered listener heard once that the
      overlay was shown and once that it was gone. */
  lemma ShowHideCycle(l: Option<ListenerId>, showCancelled: bool, hideCancelled: bool)
    ensures var s0 := SetSlidingListener(Init(), l);
      var es := [CallShow, DisplayFired, ShowTerminal(showCancelled), CallHide, HideTerminal(hideCancelled)];
      && Admissible(s0, es)
      && var s := Run(s0, es);
      && s.state == Hidden && !s.attached && s.unmounted && s.runningShow == 0 && s.runningHide == 0
      && s.calls == [AddView, MakeVisible, Animate(true)] + ShownNotice(l)
                    + [Animate(false), Unmount, RemoveView] + GoneNotice(l)
  {
    var s0 := SetSlidingListener(Init(), l);
    var e3, e5 := ShowTerminal(showCancelled), HideTerminal(hideCancelled);
    var s1 := Step(s0, CallShow);
    var s2 := Step(s1, DisplayFired);
    var s3 := Step(s2, e3);
    var s4 := Step(s3, CallHide);
    var s5 := Step(s4, e5);
    RunCons(s4, e5, []);
    RunCons(s3, CallHide, [e5]);
    RunCons(s2, e3, [CallHide] + [e5]);
    RunCons(s1, DisplayFired, [e3] + ([CallHide] + [e5]));
    RunCons(s0, CallShow, [DisplayFired] + ([e3] + ([CallHide] + [e5])));
    assert [CallShow] + ([DisplayFired] + ([e3] + ([CallHide] + [e5]))) ==
           [CallShow, DisplayFired, e3, CallHide, e5];
    assert s5.calls == [AddView, MakeVisible, Animate(true)] + ShownNotice(l)
                       + [Animate(false), Unmount, RemoveView] + GoneNotice(l);
  }

  /** hide() is not guarded: called on an overlay that was never shown it still enters
      AnimateHide, and its completion unmounts and removes a view that was never added
      and tells the listener the overlay is gone. */
  lemma HideBeforeShow(l: Option<ListenerId>)
    ensures var s0 := SetSlidingListener(Init(), l);
      && Admissible(s0, [CallHide, HideAnimEnded])
      && IsHiding(Step(s0, CallHide))
      && var s := Run(s0, [CallHide, HideAnimEnded]);
      && s.state == Hidden && s.unmounted && !s.attached
      && s.calls == [Animate(false), Unmount, RemoveView] + GoneNotice(l)
  {
  }

  /** hide() during the inward animation is not guarded either: when the inward
      animator's terminal callback arrives after the outward one, the overlay reports
      isVisible() although its view has been removed from the parent. */
  lemma LateShowCompletion()
    ensures var es := [CallShow, DisplayFired, CallHide, HideAnimEnded, ShowAnimEnded];
      && Admissible(Init(), es)
      && var s := Run(Init(), es);
      && IsVisible(s) && !s.attached && s.unmounted
  {
  }

  /** Nothing makes the view invisible again or remounts it: after a whole cycle, a
      second show() adds a view that is already visible and already unmounted. */
  lemma ReshowAfterCycle()
    ensures var es := [CallShow, DisplayFired, ShowAnimEnded, CallHide, HideAnimEnded, CallShow];
      && Admissible(Init(), es)
      && var s := Run(Init(), es);
      && s.state == Hidden && s.attached && s.visible && s.unmounted && s.displayPending
  {
  }
}
