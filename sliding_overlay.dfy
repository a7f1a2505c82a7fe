/** The sliding overlay panel as an object whose methods update its fields in place.

    Its own fields are the visibility state and the listener. The content view and
    the parent it drives are represented by flags (in the parent, visible, unmounted),
    the host's pending callbacks by the display flag and the animator counts, and the
    calls it makes by a ghost log. Every public entry point that changes state is
    specified by the event it answers to in OverlayMachine: its new state is `Step`
    of its old state, and it keeps `Valid()`. The two shared handlers are specified by
    the machine's handler functions instead; they are meant to run inside an
    animator's terminal callback, and called directly they can break `Valid()`.
 */
module SlidingOverlayView {
  import opened OverlayMachine

  class SlidingOverlay {
    var state: VisibilityState
    var listener: Option<ListenerId>
    var attached: bool
    var visible: bool
    var unmounted: bool
    var displayPending: bool
    var runningShow: nat
    var runningHide: nat
    ghost var calls: seq<Call>

    /** The object's state as a value of the machine. */
    ghost function Model(): Overlay
      reads this
    {
      Overlay(state, listener, attached, visible, unmounted, displayPending,
              runningShow, runningHide, calls)
    }

    ghost predicate Valid()
      reads this
    {
      Consistent(Model())
    }

    /** Builds the content view invisible; the overlay starts Hidden, with no listener. */
    constructor ()
      ensures Valid() && Model() == Init()
      ensures state == Hidden && !visible && !attached && listener == None
    {
      state := Hidden;
      listener := None;
      attached := false;
      visible := false;
      unmounted := false;
      displayPending := false;
      runningShow := 0;
      runningHide := 0;
      calls := [];
      InitConsistent();
    }

    method SetSlidingListener(l: Option<ListenerId>)
      requires Valid()
      modifies this
      ensures Valid() && Model() == Step(old(Model()), CallSetListener(l))
      ensures listener == l && state == old(state) && calls == old(calls)
    {
      listener := l;
      StepConsistent(old(Model()), CallSetListener(l));
    }

    /** Adds the still invisible view to the parent and arms the display callback. */
    method Show()
      requires Valid() && !attached
      modifies this
      ensures Valid() && Model() == Step(old(Model()), CallShow)
      ensures attached && displayPending && state == old(state) && visible == old(visible)
      ensures calls == old(calls) + [AddView]
    {
      attached := true;
      calls := calls + [AddView];
      displayPending := true;
      StepConsistent(old(Model()), CallShow);
    }

    /** The display callback: the view is made visible and the state AnimateShow
        before the inward animator is started. */
    method OnDisplay()
      requires Valid() && attached && displayPending
      modifies this
      ensures Valid() && Model() == Step(old(Model()), DisplayFired)
      ensures visible && state == AnimateShow && runningShow == old(runningShow) + 1
      ensures calls == old(calls) + [MakeVisible, Animate(true)]
    {
      displayPending := false;
      visible := true;
      calls := calls + [MakeVisible];
      state := AnimateShow;
      runningShow := runningShow + 1;
      calls := calls + [Animate(true)];
      assert Model() == OverlayMachine.OnDisplay(old(Model()));
      StepConsistent(old(Model()), DisplayFired);
    }

    method OnShowAnimationCancel()
      requires Valid() && runningShow > 0
      modifies this
      ensures Valid() && Model() == Step(old(Model()), ShowAnimCancelled)
      ensures state == Shown && runningShow == old(runningShow) - 1
      ensures calls == old(calls) + ShownNotice(listener)
    {
      runningShow := runningShow - 1;
      OnSlidingOverlayShown();
      StepConsistent(old(Model()), ShowAnimCancelled);
    }

    method OnShowAnimationEnd()
      requires Valid() && runningShow > 0
      modifies this
      ensures Valid() && Model() == Step(old(Model()), ShowAnimEnded)
      ensures state == Shown && runningShow == old(runningShow) - 1
      ensures calls == old(calls) + ShownNotice(listener)
    {
      runningShow := runningShow - 1;
      OnSlidingOverlayShown();
      StepConsistent(old(Model()), ShowAnimEnded);
    }

    /** Enters AnimateHide at once and starts the outward animator. */
    method Hide()
      requires Valid()
      modifies this
      ensures Valid() && Model() == Step(old(Model()), CallHide)
      ensures state == AnimateHide && attached == old(attached) && runningHide == old(runningHide) + 1
      ensures calls == old(calls) + [Animate(false)]
    {
      state := AnimateHide;
      runningHide := runningHide + 1;
      calls := calls + [Animate(false)];
      StepConsistent(old(Model()), CallHide);
    }

    method OnHideAnimationCancel()
      requires Valid() && runningHide > 0
      modifies this
      ensures Valid() && Model() == Step(old(Model()), HideAnimCancelled)
      ensures state == Hidden && !attached && unmounted && runningHide == old(runningHide) - 1
      ensures calls == old(calls) + [Unmount, RemoveView] + GoneNotice(listener)
    {
      runningHide := runningHide - 1;
      OnSlidingOverlayEnd();
      StepConsistent(old(Model()), HideAnimCancelled);
    }

    method OnHideAnimationEnd()
      requires Valid() && runningHide > 0
      modifies this
      ensures Valid() && Model() == Step(old(Model()), HideAnimEnded)
      ensures state == Hidden && !attached && unmounted && runningHide == old(runningHide) - 1
      ensures calls == old(calls) + [Unmount, RemoveView] + GoneNotice(listener)
    {
      runningHide := runningHide - 1;
      OnSlidingOverlayEnd();
      StepConsistent(old(Model()), HideAnimEnded);
    }

    method IsShowing() returns (b: bool)
      ensures b == OverlayMachine.IsShowing(Model())
    {
      b := state == AnimateShow;
    }

    method IsVisible() returns (b: bool)
      ensures b == OverlayMachine.IsVisible(Model())
    {
      b := state == Shown;
    }

    method IsHiding() returns (b: bool)
      ensures b == OverlayMachine.IsHiding(Model())
    {
      b := state == AnimateHide;
    }

    /** The shared handler of the inward animator's two terminal callbacks. Called
        on its own, it can leave the overlay Shown with an invisible view, which
        `Valid()` rules out. */
    method OnSlidingOverlayShown()
      modifies this
      ensures Model() == OverlayMachine.OnSlidingOverlayShown(old(Model()))
    {
      state := Shown;
      if listener.Some? {
        calls := calls + [NotifyShown(listener.value)];
      }
    }

    /** The shared handler of the outward animator's two terminal callbacks. Called
        on its own, it can leave an animating state without its animator. */
    method OnSlidingOverlayEnd()
      modifies this
      ensures Model() == OverlayMachine.OnSlidingOverlayEnd(old(Model()))
    {
      state := Hidden;
      unmounted := true;
      calls := calls + [Unmount];
      attached := false;
      calls := calls + [RemoveView];
      if listener.Some? {
        calls := calls + [NotifyGone(listener.value)];
      }
    }
  }

  /** A caller of the object sees what the machine promises: after show(), the display
      callback and either terminal callback, the overlay is visible, and the listener
      registered beforehand was told so once. */
  method ShowClient(l: ListenerId, cancelled: bool)
  {
    var o := new SlidingOverlay();
    o.SetSlidingListener(Some(l));
    assert o.calls == [] && o.listener == Some(l);
    o.Show();
    assert o.calls == [AddView];
    var showing := o.IsShowing();
    assert !showing && !o.visible;
    o.OnDisplay();
    assert o.calls == [AddView, MakeVisible, Animate(true)];
    showing := o.IsShowing();
    assert showing && o.visible;
    if cancelled { o.OnShowAnimationCancel(); } else { o.OnShowAnimationEnd(); }
    assert o.calls == [AddView, MakeVisible, Animate(true)] + [NotifyShown(l)];
    var isVisible := o.IsVisible();
    assert isVisible;
  }

  /** Hiding a shown overlay: isHiding() holds while the view is still in the parent,
      and after the outward animator ends all three queries are false. */
  method HideClient(o: SlidingOverlay)
    requires o.Valid() && o.state == Shown
    modifies o
  {
    o.Hide();
    var hiding := o.IsHiding();
    assert hiding && o.attached == old(o.attached);
    o.OnHideAnimationEnd();
    var b1 := o.IsShowing();
    var b2 := o.IsVisible();
    var b3 := o.IsHiding();
    assert !b1 && !b2 && !b3 && !o.attached && o.unmounted;
  }
}
