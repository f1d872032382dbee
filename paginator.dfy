/** `Paginator`, the view that drives a page source: it resolves requests,
    sends pages, lays out and disables its buttons, and lets only the
    author of the invoking context press them. */
module Paginators {
  import opened MenuErrors
  import opened PageSources
  import opened Navigation
  import Session

  class Paginator<T, R> {
    const source: IteratorPageSource<T, R>
    const allowFirstAndLast: bool
    /** The view's children, in order. */
    var children: seq<ButtonKind>
    /** The `disabled` attribute of each of the five button objects. */
    var disabled: map<ButtonKind, bool>
    /** Set by `stop()`: the view no longer receives interactions. */
    var stopped: bool
    /** `ctx.author.id`, known once `start` has run. */
    var owner: Option<int>
    /** Whether `self.message` is set: the first page sent successfully
        creates the message the buttons live on. */
    var sent: bool

    /** The source's invariant, a flag for every button, and the quit button
        enabled until the view stops. */
    ghost predicate Valid()
      reads this, source
    {
      source.Valid() && Complete(disabled) && (!stopped ==> !disabled[QuitButton])
    }

    function Config(): Session.Config<T, R> {
      Session.Config(source.perPage, source.numEntries, source.format, allowFirstAndLast)
    }

    ghost function State(): Session.State<T>
      reads this, source
    {
      Session.State(source.State(), source.currentPage, View(children, disabled), stopped, owner, sent)
    }

    /** A new view holds its five declared buttons, enabled. */
    constructor (source: IteratorPageSource<T, R>, allowFirstAndLast: bool)
      requires source.Valid()
      ensures Valid()
      ensures this.source == source && this.allowFirstAndLast == allowFirstAndLast
      ensures View(children, disabled) == Session.Initial(Config(), source.items).view
      ensures !stopped && owner == None && !sent
    {
      this.source := source;
      this.allowFirstAndLast := allowFirstAndLast;
      children := [FirstButton, PreviousButton, NextButton, LastButton, QuitButton];
      disabled := map b | b in AllButtons :: false;
      stopped := false;
      owner := None;
      sent := false;
      AllButtonsAreDeclared();
    }

    /** `clear_items`: the view has no children. */
    method ClearItems()
      modifies this`children
      ensures children == []
    {
      children := [];
    }

    /** `add_item`: `b` becomes the last child. */
    method AddItem(b: ButtonKind)
      modifies this`children
      ensures children == old(children) + [b]
    {
      children := children + [b];
    }

    /** `fill_items(entries)`. */
    method FillItems(entries: int)
      requires Complete(disabled)
      modifies this`children, this`disabled
      ensures Complete(disabled)
      ensures children == old(children) + FilledKinds(allowFirstAndLast, source.perPage, entries)
      ensures disabled == FilledDisabled(allowFirstAndLast, source.perPage, source.currentPage, entries, old(disabled))
    {
      if entries <= source.perPage {
        return;
      }
      var visible := (source.currentPage + 1) * source.perPage;
      if allowFirstAndLast {
        AddItem(FirstButton);
        if visible <= source.perPage {
          disabled := disabled[FirstButton := true];
        } else {
          disabled := disabled[FirstButton := false];
        }
      }
      ghost var d1 := disabled;
      assert d1 == if allowFirstAndLast then old(disabled)[FirstButton := visible <= source.perPage] else old(disabled);
      AddItem(PreviousButton);
      AddItem(NextButton);
      if source.perPage < visible {
        disabled := disabled[PreviousButton := false];
      } else {
        disabled := disabled[PreviousButton := true];
      }
      if visible < entries {
        disabled := disabled[NextButton := false];
      } else {
        disabled := disabled[NextButton := true];
      }
      ghost var d2 := disabled;
      assert d2 == d1[PreviousButton := !(source.perPage < visible)][NextButton := !(visible < entries)];
      if allowFirstAndLast {
        AddItem(LastButton);
        if visible >= entries {
          disabled := disabled[LastButton := true];
        } else {
          disabled := disabled[LastButton := false];
        }
      }
      assert disabled == if allowFirstAndLast then d2[LastButton := visible >= entries] else d2;
      AddItem(QuitButton);
    }

    /** `send_page(interaction, go_to)`, up to handing the page to Discord.
        Every caller runs after `start` has recorded the context. */
    method SendPage(goTo: PageGoTo) returns (r: Result<R>)
      requires Valid() && owner.Some?
      modifies this`children, this`disabled, this`sent, source
      ensures Valid()
      ensures (r, State()) == Session.SendPage(Config(), old(State()), goTo)
    {
      ghost var before := State();
      var index := ResolveTarget(goTo, source.currentPage, source.perPage, source.numEntries);
      if index.Err? {
        Session.SendPageUnresolved(Config(), before, goTo);
        assert State() == before;
        return Err(index.error);
      }
      r := source.PreparePage(index.value);
      ghost var p := Prepare(source.perPage, source.format, before.cursor, before.currentPage, index.value);
      if r.Err? {
        Session.SendPageEmpty(Config(), before, goTo, index.value, p);
        assert State() == before.(cursor := p.cursor);
        return;
      }
      ClearItems();
      var entries := source.numEntries;
      FillItems(entries);
      sent := true;
      Session.SendPageShown(Config(), before, goTo, index.value, p);
      ghost var view := Session.Refill(Config(), index.value, before.view);
      assert View(children, disabled) == view;
      FillDisablesByVisibleEntries(allowFirstAndLast, source.perPage, index.value, entries, before.view.disabled);
      assert State() == before.(cursor := p.cursor, currentPage := index.value, view := view, sent := true);
    }

    /** `quit`: disable every child, then stop the view. */
    method Quit()
      requires Valid()
      modifies this`disabled, this`stopped
      ensures Valid()
      ensures State() == Session.Quit(old(State()))
    {
      var i := 0;
      while i < |children|
        invariant 0 <= i <= |children|
        invariant disabled.Keys == old(disabled).Keys
        invariant forall b :: b in disabled ==> disabled[b] == (b in children[..i] || old(disabled)[b])
      {
        disabled := disabled[children[i] := true];
        i := i + 1;
      }
      assert children[..i] == children;
      stopped := true;
    }

    /** `start(ctx)`. */
    method Start(author: int) returns (r: Result<R>)
      requires Valid()
      modifies this, source
      ensures Valid()
      ensures (r, State()) == Session.Start(Config(), old(State()), author)
    {
      owner := Some(author);
      r := SendPage(CurrentPage);
    }

    /** A press of button `b` by `user`, as the view receives it: the check,
        then the button's callback. */
    method Dispatch(user: int, b: ButtonKind) returns (o: Session.Outcome<R>)
      requires Valid()
      modifies this, source
      ensures Valid()
      ensures (o, State()) == Session.Press(Config(), old(State()), user, b)
    {
      if stopped || !sent || owner.None? || b !in children || disabled[b] {
        return Session.Ignored;
      }
      if !Session.InteractionCheck(owner, user) {
        return Session.NotYours;
      }
      if b == QuitButton {
        Quit();
        return Session.Closed;
      }
      var r := SendPage(TargetOf(b));
      o := if r.Ok? then Session.Shown(r.value) else Session.Failed(r.error);
    }
  }
}
