/** The flip behaviour of a product card (the click and keydown handlers that
    `renderProducts` in script/main.js attaches to each card). A card is
    flipped while it carries the `active` class; the back face's
    `aria-hidden` attribute is meant to say the back is hidden exactly when
    the card is not flipped. */
module Flip {
  /** The widest viewport, in CSS pixels, at which a click flips a card. */
  const TapMaxWidth: int := 992

  /** The keys that flip a focused card. */
  predicate IsFlipKey(key: string) {
    key == "Enter" || key == " "
  }

  /** What happens to a card: a click at a viewport width, a key press, or
      the firing of a six-second revert timer set by an earlier flip. */
  datatype Event = Click(width: int) | KeyDown(key: string) | RevertTimer

  /** Whether an event flips the card. */
  predicate Flips(e: Event) {
    match e
    case Click(width) => width <= TapMaxWidth
    case KeyDown(key) => IsFlipKey(key)
    case RevertTimer => false
  }

  /** Whether the card is flipped after `events`, starting unflipped: a
      flipping event toggles it and a revert timer unflips it. A card ends
      flipped only if a flipping event came after the last revert. */
  function ActiveAfter(events: seq<Event>): (b: bool)
    ensures b ==> exists i :: 0 <= i < |events| && Flips(events[i]) &&
                            forall j :: i < j < |events| ==> !events[j].RevertTimer?
  {
    if events == [] then false
    else
      var before := ActiveAfter(events[..|events| - 1]);
      var e := events[|events| - 1];
      if e.RevertTimer? then false else if Flips(e) then !before else before
  }

  class FlipCard {
    /** The card carries the `active` class. */
    var active: bool
    /** The back face carries `aria-hidden="true"`. */
    var backHidden: bool

    /** The back face is hidden exactly when the card is not flipped. */
    predicate Synced()
      reads this
    {
      backHidden == !active
    }

    /** A freshly rendered card: not flipped, back face hidden. */
    constructor()
      ensures !active && backHidden
    {
      active := false;
      backHidden := true;
    }

    /** Toggles `active` and sets the back face's `aria-hidden` to match. */
    method Toggle()
      modifies this
      ensures active == !old(active) && backHidden == !active
    {
      active := !active;
      backHidden := !active;
    }

    /** A click flips the card only on a viewport at most 992 pixels wide;
        on a wider one nothing changes. */
    method OnClick(width: int)
      modifies this
      ensures width <= TapMaxWidth ==> active == !old(active) && backHidden == !active
      ensures width > TapMaxWidth ==> active == old(active) && backHidden == old(backHidden)
    {
      if width <= TapMaxWidth {
        Toggle();
      }
    }

    /** Enter or Space flips the card at any width; other keys change nothing. */
    method OnKeyDown(key: string)
      modifies this
      ensures IsFlipKey(key) ==> active == !old(active) && backHidden == !active
      ensures !IsFlipKey(key) ==> active == old(active) && backHidden == old(backHidden)
    {
      if IsFlipKey(key) {
        Toggle();
      }
    }

    /** The revert timer as written: it removes `active` and leaves the back
        face's `aria-hidden` as it was. */
    method RevertAsWritten()
      modifies this
      ensures !active && backHidden == old(backHidden)
    {
      active := false;
    }

    /** The revert timer as intended: it unflips the card and hides the back
        face again. */
    method Revert()
      modifies this
      ensures !active && backHidden
    {
      active := false;
      backHidden := true;
    }

    /** Dispatches one event to its handler, with the corrected revert. */
    method Handle(e: Event)
      modifies this
      ensures e.RevertTimer? ==> !active && backHidden
      ensures !e.RevertTimer? && Flips(e) ==> active == !old(active) && backHidden == !active
      ensures !e.RevertTimer? && !Flips(e) ==> active == old(active) && backHidden == old(backHidden)
    {
      match e
      case Click(width) => OnClick(width);
      case KeyDown(key) => OnKeyDown(key);
      case RevertTimer => Revert();
    }
  }

  /** With the corrected revert, a card that receives `events` ends flipped
      exactly as `ActiveAfter` says, and its back face is hidden exactly when
      it is not flipped. */
  method Replay(events: seq<Event>) returns (active: bool, backHidden: bool)
    ensures active == ActiveAfter(events)
    ensures backHidden == !active
  {
    var card := new FlipCard();
    for i := 0 to |events|
      invariant card.active == ActiveAfter(events[..i])
      invariant card.Synced()
    {
      assert events[..i + 1][..i] == events[..i];
      card.Handle(events[i]);
    }
    assert events[..|events|] == events;
    active, backHidden := card.active, card.backHidden;
  }

  /** With the revert as written, pressing Enter and letting the timer fire
      leaves the card unflipped with its back face still exposed to assistive
      technology. */
  method RevertExposesBack() returns (active: bool, backHidden: bool)
    ensures !active && !backHidden
  {
    var card := new FlipCard();
    card.OnKeyDown("Enter");
    card.RevertAsWritten();
    active, backHidden := card.active, card.backHidden;
  }

  /** A flip followed by a revert timer leaves the card unflipped, whatever
      came before. */
  lemma FlipThenRevert(events: seq<Event>, e: Event)
    requires Flips(e)
    ensures ActiveAfter(events + [e]) == !ActiveAfter(events)
    ensures !ActiveAfter(events + [e, RevertTimer])
  {
    assert (events + [e])[..|events|] == events;
    assert (events + [e, RevertTimer])[..|events| + 1] == events + [e];
  }

  /** Two flipping events in a row cancel out. */
  lemma DoubleFlip(events: seq<Event>, e1: Event, e2: Event)
    requires Flips(e1) && Flips(e2)
    ensures ActiveAfter(events + [e1, e2]) == ActiveAfter(events)
  {
    assert (events + [e1, e2])[..|events| + 1] == events + [e1];
    assert (events + [e1])[..|events|] == events;
  }

  /** A wide-screen click or another key changes nothing. */
  lemma NonFlipIgnored(events: seq<Event>, e: Event)
    requires !e.RevertTimer? && !Flips(e)
    ensures ActiveAfter(events + [e]) == ActiveAfter(events)
  {
    assert (events + [e])[..|events|] == events;
  }
}
