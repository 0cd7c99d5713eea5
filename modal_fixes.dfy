/**
 * The dialog controller of Public/Res/js/modal-fixes.js: `ModalManager`
 * keeps the ids of the open modals in opening order and drives the page's
 * modal elements and the body's scroll lock; beside it sit the periodic
 * clean-up sweep and the card search.
 *
 * The page is a `Page` object: its elements keyed by id, the body's lock
 * (overflow hidden together with class `modal-open`), and the restaurant
 * cards that the search shows or hides.
 */
module ModalFixes {
  import opened Builtins

  /** An element's inline `style.display`: never set, 'block', or 'none'. */
  datatype Display = Unset | Block | Hidden

  datatype Element = Element(
    isModal: bool,        // has class `modal`
    isBackdrop: bool,     // has class `modal-backdrop`
    dataModal: bool,      // carries a `data-modal` attribute
    display: Display,
    active: bool,         // has class `active`
    closeButtons: nat,    // `.modal-close` and `[data-modal-close]` descendants
    closeListeners: nat)  // click listeners bound on those buttons

  /** A `.restaurant-card`: the text of its name and category children, if present. */
  datatype Card = Card(name: Option<string>, category: Option<string>, display: Display)

  /** `elements` after `el.remove()` of every element `doomed` selects. */
  function Without(elements: map<string, Element>, doomed: Element -> bool): map<string, Element> {
    map id | id in elements && !doomed(elements[id]) :: elements[id]
  }

  predicate IsBackdrop(e: Element) {
    e.isBackdrop
  }

  /** Matched by `.modal, .modal-backdrop, [data-modal]`. */
  predicate IsDialogSurface(e: Element) {
    e.isModal || e.isBackdrop || e.dataModal
  }

  /** Matched by `.modal, .modal-backdrop` and not hidden inline. */
  predicate IsStuck(e: Element) {
    (e.isModal || e.isBackdrop) && e.display != Hidden
  }

  /** The element after a successful `openModal`: listeners rebound once per button, shown. */
  function Opened(e: Element): Element {
    e.(display := Block, active := true, closeListeners := e.closeButtons)
  }

  /** The element after `closeModal`: hidden, inactive, without close listeners. */
  function Closed(e: Element): Element {
    e.(display := Hidden, active := false, closeListeners := 0)
  }

  class Page {
    var elements: map<string, Element>
    var bodyLocked: bool
    var cards: seq<Card>

    constructor (elements: map<string, Element>, bodyLocked: bool, cards: seq<Card>)
      ensures this.elements == elements && this.bodyLocked == bodyLocked && this.cards == cards
    {
      this.elements := elements;
      this.bodyLocked := bodyLocked;
      this.cards := cards;
    }

    /** `document.querySelectorAll(selector).forEach(el => el.remove())`. */
    method RemoveAll(doomed: Element -> bool)
      modifies this
      ensures elements == Without(old(elements), doomed)
      ensures bodyLocked == old(bodyLocked) && cards == old(cards)
    {
      var todo := elements.Keys;
      var kept := elements;
      while todo != {}
        invariant todo <= elements.Keys
        invariant forall id :: id in kept <==> id in elements && (id in todo || !doomed(elements[id]))
        invariant forall id :: id in kept ==> kept[id] == elements[id]
        decreases todo
      {
        var id :| id in todo;
        if doomed(elements[id]) {
          kept := kept - {id};
        }
        todo := todo - {id};
      }
      elements := kept;
    }
  }

  /**
   * `activeModals.filter(id => id !== modalId)`: every occurrence of `modalId`
   * goes, the other ids stay in their order.
   */
  function RemoveId(ids: seq<string>, modalId: string): (rest: seq<string>)
    ensures forall x :: x in rest <==> x in ids && x != modalId
    ensures Subsequence(rest, ids)
    ensures Distinct(ids) ==> Distinct(rest)
    ensures modalId !in ids ==> rest == ids
  {
    var rest := Filter(ids, (x: string) => x != modalId);
    FilterMultiplicity(ids, (x: string) => x != modalId);
    FilterSubsequence(ids, (x: string) => x != modalId);
    DistinctMultiplicity(ids);
    DistinctMultiplicity(rest);
    if modalId !in ids then KeepAllDifferent(ids, modalId); rest else rest
  }

  /** Closing the last-opened id of a duplicate-free list drops exactly that entry. */
  lemma {:induction false} RemovingLastEntry(ids: seq<string>)
    requires Distinct(ids) && ids != []
    ensures RemoveId(ids, ids[|ids| - 1]) == ids[..|ids| - 1]
  {
    var last := ids[|ids| - 1];
    var p := (x: string) => x != last;
    var prefix := ids[..|ids| - 1];
    assert ids == prefix + [last];
    FilterConcat(prefix, [last], p);
    assert Filter([last], p) == [];
    KeepAllDifferent(prefix, last);
  }

  lemma {:induction false} KeepAllDifferent(ids: seq<string>, last: string)
    requires last !in ids
    ensures Filter(ids, (x: string) => x != last) == ids
  {
    if ids != [] {
      KeepAllDifferent(ids[1..], last);
      assert ids == [ids[0]] + ids[1..];
    }
  }

  class ModalManager {
    var activeModals: seq<string>
    const page: Page

    /** The list has no duplicates, and the body is locked while it is non-empty. */
    ghost predicate Valid()
      reads this, page
    {
      Distinct(activeModals) && (activeModals != [] ==> page.bodyLocked)
    }

    /** The body is locked exactly while a modal is open. */
    ghost predicate Consistent()
      reads this, page
    {
      page.bodyLocked <==> activeModals != []
    }

    constructor (page: Page)
      ensures this.page == page && activeModals == [] && Valid()
    {
      this.page := page;
      activeModals := [];
    }

    /** Whether the id is tracked; while the manager is valid an open modal means a locked body. */
    function IsModalOpen(modalId: string): (open: bool)
      reads this, page
      ensures open <==> exists i :: 0 <= i < |activeModals| && activeModals[i] == modalId
      ensures Valid() && open ==> page.bodyLocked
    {
      modalId in activeModals
    }

    /** `removeModalEventListeners`: cloning the close buttons drops all their listeners. */
    method RemoveModalEventListeners(modalId: string)
      requires modalId in page.elements
      modifies page
      ensures page.elements == old(page.elements)[modalId := old(page.elements[modalId]).(closeListeners := 0)]
      ensures page.bodyLocked == old(page.bodyLocked) && page.cards == old(page.cards)
    {
      var modal := page.elements[modalId];
      page.elements := page.elements[modalId := modal.(closeListeners := 0)];
    }

    /** `addModalEventListeners`: one click listener more on each close button. */
    method AddModalEventListeners(modalId: string)
      requires modalId in page.elements
      modifies page
      ensures page.elements == old(page.elements)[modalId :=
        old(page.elements[modalId]).(closeListeners := old(page.elements[modalId]).closeListeners + old(page.elements[modalId]).closeButtons)]
      ensures page.bodyLocked == old(page.bodyLocked) && page.cards == old(page.cards)
    {
      var modal := page.elements[modalId];
      page.elements := page.elements[modalId := modal.(closeListeners := modal.closeListeners + modal.closeButtons)];
    }

    method OpenModal(modalId: string)
      requires Valid()
      modifies this, page
      ensures Valid() && page.cards == old(page.cards)
      ensures old(Consistent()) ==> Consistent()
      ensures modalId !in old(page.elements) || modalId in old(activeModals) ==>
        && activeModals == old(activeModals)
        && page.elements == old(page.elements)
        && page.bodyLocked == old(page.bodyLocked)
      ensures modalId in old(page.elements) && modalId !in old(activeModals) ==>
        && activeModals == old(activeModals) + [modalId]
        && page.elements == old(page.elements)[modalId := Opened(old(page.elements[modalId]))]
        && page.bodyLocked
    {
      if modalId !in page.elements || IsModalOpen(modalId) {
        return;
      }
      RemoveModalEventListeners(modalId);
      activeModals := activeModals + [modalId];
      var modal := page.elements[modalId];
      page.elements := page.elements[modalId := modal.(display := Block, active := true)];
      page.bodyLocked := true;
      AddModalEventListeners(modalId);
    }

    method CloseModal(modalId: string)
      requires Valid()
      modifies this, page
      ensures Valid() && page.cards == old(page.cards)
      ensures modalId !in old(page.elements) ==>
        && activeModals == old(activeModals)
        && page.elements == old(page.elements)
        && page.bodyLocked == old(page.bodyLocked)
      ensures modalId in old(page.elements) ==>
        && activeModals == RemoveId(old(activeModals), modalId)
        && page.elements == Without(old(page.elements)[modalId := Closed(old(page.elements[modalId]))], IsBackdrop)
        && Consistent()
      ensures modalId !in old(activeModals) ==> activeModals == old(activeModals)
    {
      if modalId !in page.elements {
        return;
      }
      ghost var before := page.elements;
      ghost var wasActive := activeModals;
      activeModals := RemoveId(activeModals, modalId);
      assert activeModals != [] ==> wasActive != [] by {
        if activeModals != [] { assert activeModals[0] in wasActive; }
      }
      var modal := page.elements[modalId];
      page.elements := page.elements[modalId := modal.(display := Hidden, active := false)];
      RemoveModalEventListeners(modalId);
      assert page.elements == before[modalId := Closed(modal)];
      ghost var closed := page.elements;
      page.RemoveAll(IsBackdrop);
      assert page.elements == Without(closed, IsBackdrop);
      if activeModals == [] {
        page.bodyLocked := false;
      }
    }

    /** Escape closes the most recently opened modal, and only that one. */
    method HandleEscapeKey(key: string)
      requires Valid()
      modifies this, page
      ensures Valid() && page.cards == old(page.cards)
      ensures old(Consistent()) ==> Consistent()
      ensures key != "Escape" || old(activeModals) == [] ||
              old(activeModals)[|old(activeModals)| - 1] !in old(page.elements) ==>
        && activeModals == old(activeModals)
        && page.elements == old(page.elements)
        && page.bodyLocked == old(page.bodyLocked)
      ensures key == "Escape" && old(activeModals) != [] &&
              old(activeModals)[|old(activeModals)| - 1] in old(page.elements) ==>
        var last := old(activeModals)[|old(activeModals)| - 1];
        && activeModals == old(activeModals)[..|old(activeModals)| - 1]
        && page.elements == Without(old(page.elements)[last := Closed(old(page.elements[last]))], IsBackdrop)
    {
      if key == "Escape" && |activeModals| > 0 {
        var lastModal := activeModals[|activeModals| - 1];
        RemovingLastEntry(activeModals);
        CloseModal(lastModal);
      }
    }

    /** A click on an open modal's own root (its backdrop area) closes it. */
    method HandleBackdropClick(targetId: string)
      requires Valid()
      modifies this, page
      ensures Valid() && page.cards == old(page.cards)
      ensures old(Consistent()) ==> Consistent()
      ensures !(targetId in old(page.elements) && old(page.elements[targetId]).isModal && targetId in old(activeModals)) ==>
        && activeModals == old(activeModals)
        && page.elements == old(page.elements)
        && page.bodyLocked == old(page.bodyLocked)
      ensures targetId in old(page.elements) && old(page.elements[targetId]).isModal && targetId in old(activeModals) ==>
        && targetId !in activeModals
        && activeModals == RemoveId(old(activeModals), targetId)
        && page.elements == Without(old(page.elements)[targetId := Closed(old(page.elements[targetId]))], IsBackdrop)
    {
      if targetId in page.elements && page.elements[targetId].isModal && targetId in activeModals {
        CloseModal(targetId);
      }
    }

    /** Emergency clean-up: every dialog surface is removed and the list cleared. */
    method ForceCloseAllModals()
      modifies this, page
      ensures Valid() && Consistent() && page.cards == old(page.cards)
      ensures activeModals == [] && !page.bodyLocked
      ensures page.elements == Without(old(page.elements), IsDialogSurface)
    {
      page.RemoveAll(IsDialogSurface);
      page.bodyLocked := false;
      activeModals := [];
    }
  }

  /** Opening the same modal twice tracks it once. */
  method OpenTwice(elements: map<string, Element>, modalId: string) returns (stack: seq<string>)
    requires modalId in elements
    ensures stack == [modalId]
  {
    var page := new Page(elements, false, []);
    var manager := new ModalManager(page);
    manager.OpenModal(modalId);
    manager.OpenModal(modalId);
    stack := manager.activeModals;
  }

  /** After opening a modal and closing it again nothing is tracked and the body is unlocked. */
  method OpenThenClose(elements: map<string, Element>, modalId: string) returns (stack: seq<string>, locked: bool)
    requires modalId in elements
    ensures stack == [] && !locked
  {
    var page := new Page(elements, false, []);
    var manager := new ModalManager(page);
    manager.OpenModal(modalId);
    manager.CloseModal(modalId);
    stack, locked := manager.activeModals, page.bodyLocked;
  }

  /** Escape closes the modal opened last and leaves the earlier one open and the body locked. */
  method EscapeClosesLatest(elements: map<string, Element>, first: string, second: string)
    returns (stack: seq<string>, locked: bool, secondShown: bool)
    requires first in elements && second in elements && first != second
    ensures stack == [first] && locked && !secondShown
  {
    var page := new Page(elements, false, []);
    var manager := new ModalManager(page);
    manager.OpenModal(first);
    manager.OpenModal(second);
    manager.HandleEscapeKey("Escape");
    assert [first, second][..1] == [first];
    stack, locked := manager.activeModals, page.bodyLocked;
    secondShown := second in page.elements && page.elements[second].display != Hidden;
  }

  /** After a force-close, opening a modal that was a dialog surface does nothing. */
  method ForceCloseThenOpen(elements: map<string, Element>, modalId: string) returns (stack: seq<string>, locked: bool)
    requires modalId in elements && IsDialogSurface(elements[modalId])
    ensures stack == [] && !locked
  {
    var page := new Page(elements, false, []);
    var manager := new ModalManager(page);
    manager.OpenModal(modalId);
    manager.ForceCloseAllModals();
    manager.OpenModal(modalId);
    stack, locked := manager.activeModals, page.bodyLocked;
  }

  /**
   * The body of the five-second interval: with no modal tracked, remove every
   * modal or backdrop not hidden inline, and unlock the body.
   */
  method Sweep(manager: ModalManager)
    modifies manager.page
    ensures old(manager.Valid()) ==> manager.Valid()
    ensures manager.page.cards == old(manager.page.cards)
    ensures manager.activeModals == [] ==>
      && manager.page.elements == Without(old(manager.page.elements), IsStuck)
      && !manager.page.bodyLocked
      && manager.Consistent()
    ensures manager.activeModals != [] ==>
      && manager.page.elements == old(manager.page.elements)
      && manager.page.bodyLocked == old(manager.page.bodyLocked)
  {
    if |manager.activeModals| == 0 {
      manager.page.RemoveAll(IsStuck);
      manager.page.bodyLocked := false;
    }
  }

  /** The card search: the lowered name or category contains the lowered query. */
  predicate CardMatches(card: Card, query: string) {
    var lowerQuery := Lower(query);
    var name := if card.name.Some? then Lower(card.name.value) else "";
    var category := if card.category.Some? then Lower(card.category.value) else "";
    Includes(name, lowerQuery) || Includes(category, lowerQuery) || query == ""
  }

  /** `performSearch`: each card is shown or hidden; nothing else on the page changes. */
  method PerformSearch(page: Page, query: string)
    modifies page
    ensures |page.cards| == |old(page.cards)|
    ensures forall i :: 0 <= i < |page.cards| ==>
      page.cards[i] == old(page.cards[i]).(display := if CardMatches(old(page.cards[i]), query) then Block else Hidden)
    ensures page.elements == old(page.elements) && page.bodyLocked == old(page.bodyLocked)
  {
    var i := 0;
    while i < |page.cards|
      invariant 0 <= i <= |page.cards| == |old(page.cards)|
      invariant forall k :: 0 <= k < i ==>
        page.cards[k] == old(page.cards[k]).(display := if CardMatches(old(page.cards[k]), query) then Block else Hidden)
      invariant forall k :: i <= k < |page.cards| ==> page.cards[k] == old(page.cards[k])
      invariant page.elements == old(page.elements) && page.bodyLocked == old(page.bodyLocked)
    {
      var card := page.cards[i];
      var shown := CardMatches(card, query);
      page.cards := page.cards[i := card.(display := if shown then Block else Hidden)];
      i := i + 1;
    }
  }

  /**
   * A card is shown exactly when its lowered name or category contains the
   * lowered query somewhere; the empty query therefore shows every card.
   */
  lemma CardVisibility(card: Card, query: string)
    ensures var name := if card.name.Some? then Lower(card.name.value) else "";
      var category := if card.category.Some? then Lower(card.category.value) else "";
      CardMatches(card, query) <==>
        (exists i :: OccursAt(name, Lower(query), i)) || (exists i :: OccursAt(category, Lower(query), i))
    ensures CardMatches(card, "")
  {
    var name := if card.name.Some? then Lower(card.name.value) else "";
    var category := if card.category.Some? then Lower(card.category.value) else "";
    IncludesIffOccurs(name, Lower(query));
    IncludesIffOccurs(category, Lower(query));
    if query == "" {
      assert Lower(query) == "";
      IncludesEmpty(name);
    }
  }
}
