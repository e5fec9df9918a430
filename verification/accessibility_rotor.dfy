/**
  The card form's accessibility rotors ("Fields" and "Invalid Data Fields"): given the
  element VoiceOver is on, a predicate on fields and a direction, pick the element to
  move to. A field may expose its own accessibility elements, which the rotor steps
  through before leaving the field.

  What each field exposes (`accessibilityElements`) and the predicate (`{ _ in true }`
  or `{ !$0.isValid }`) arrive as inputs.
 */
module AccessibilityRotor {
  import opened Wrappers

  datatype CardField = CardNumber | CardName | ExpiryDate | SecureCode

  /** The rotor's field order. */
  const Fields: seq<CardField> := [CardNumber, CardName, ExpiryDate, SecureCode]

  /** An accessibility element, compared by identity: a field's own view, or any other
      object (such as one of the elements a field exposes). */
  datatype Element = FieldView(field: CardField) | OtherElement(id: nat)

  /** `AccessibilityCustomRotorDirection`; unknown future directions behave as `next`. */
  datatype Direction = Previous | Next

  /** `fields.firstIndex(of:)`: every card field occurs exactly once in `Fields`. */
  function Position(field: CardField): (i: nat)
    ensures i < |Fields| && Fields[i] == field
    ensures forall j :: 0 <= j < |Fields| && Fields[j] == field ==> j == i
  {
    match field
    case CardNumber => 0
    case CardName => 1
    case ExpiryDate => 2
    case SecureCode => 3
  }

  /** `first(where:)`. */
  function FirstWhere(fs: seq<CardField>, p: CardField -> bool): (r: Option<CardField>)
    ensures r.None? <==> forall i :: 0 <= i < |fs| ==> !p(fs[i])
    ensures r.Some? ==> exists i :: 0 <= i < |fs| && fs[i] == r.value && p(fs[i]) &&
                                    forall j :: 0 <= j < i ==> !p(fs[j])
  {
    if |fs| == 0 then None
    else if p(fs[0]) then Some(fs[0])
    else
      var r := FirstWhere(fs[1..], p);
      assert forall i :: 1 <= i < |fs| ==> fs[i] == fs[1..][i - 1];
      assert r.Some? ==> exists i :: 0 <= i < |fs| && fs[i] == r.value && p(fs[i]) &&
                                     forall j :: 0 <= j < i ==> !p(fs[j]) by {
        if r.Some? {
          var i :| 0 <= i < |fs[1..]| && fs[1..][i] == r.value && p(fs[1..][i]) &&
                   forall j :: 0 <= j < i ==> !p(fs[1..][j]);
          assert fs[i + 1] == r.value;
        }
      }
      r
  }

  /** `reversed().first(where:)`: the last element satisfying the predicate. */
  function LastWhere(fs: seq<CardField>, p: CardField -> bool): (r: Option<CardField>)
    ensures r.None? <==> forall i :: 0 <= i < |fs| ==> !p(fs[i])
    ensures r.Some? ==> exists i :: 0 <= i < |fs| && fs[i] == r.value && p(fs[i]) &&
                                    forall j :: i < j < |fs| ==> !p(fs[j])
  {
    if |fs| == 0 then None
    else if p(fs[|fs| - 1]) then Some(fs[|fs| - 1])
    else
      var r := LastWhere(fs[..|fs| - 1], p);
      assert forall i :: 0 <= i < |fs| - 1 ==> fs[i] == fs[..|fs| - 1][i];
      r
  }

  /** The element a field is entered at: its first exposed element going forward, its
      last going backward, or the field's own view when it exposes none. */
  function EntryOf(field: Option<CardField>, elementsOf: CardField -> Option<seq<Element>>,
                   direction: Direction): (r: Option<Element>)
    ensures r.Some? <==> field.Some?
    ensures field.Some? && elementsOf(field.value).Some? && |elementsOf(field.value).value| > 0 ==>
              var es := elementsOf(field.value).value;
              r == Some(if direction == Previous then es[|es| - 1] else es[0])
    ensures field.Some? && (elementsOf(field.value).None? || elementsOf(field.value).value == []) ==>
              r == Some(FieldView(field.value))
  {
    match field
    case None => None
    case Some(f) =>
      match elementsOf(f)
      case Some(es) =>
        if |es| == 0 then Some(FieldView(f))
        else if direction == Previous then Some(es[|es| - 1])
        else Some(es[0])
      case None => Some(FieldView(f))
  }

  /** Whether a field is the one an element belongs to: one of its exposed elements, or
      the field's own view when it exposes none. */
  predicate Owns(field: CardField, element: Element, elementsOf: CardField -> Option<seq<Element>>) {
    match elementsOf(field)
    case Some(es) => element in es
    case None => element == FieldView(field)
  }

  /** `fieldOfElement`: the first field that owns the element, or the card-number field
      when none does. */
  function OwnerOf(element: Element, elementsOf: CardField -> Option<seq<Element>>): (r: CardField)
    ensures (exists i :: 0 <= i < |Fields| && Owns(Fields[i], element, elementsOf)) ==>
              Owns(r, element, elementsOf) && forall j :: 0 <= j < Position(r) ==> !Owns(Fields[j], element, elementsOf)
    ensures (forall i :: 0 <= i < |Fields| ==> !Owns(Fields[i], element, elementsOf)) ==> r == CardNumber
  {
    match FirstWhere(Fields, f => Owns(f, element, elementsOf))
    case Some(f) => f
    case None => CardNumber
  }

  /** The nearest field after the given one that satisfies the predicate. */
  function NextField(field: CardField, p: CardField -> bool): (r: Option<CardField>)
    ensures r.Some? ==> Position(field) < Position(r.value) && p(r.value) &&
                        forall g :: Position(field) < Position(g) < Position(r.value) ==> !p(g)
    ensures r.None? ==> forall g :: Position(field) < Position(g) ==> !p(g)
  {
    var i := Position(field);
    var after := Fields[i + 1..];
    var r := FirstWhere(after, p);
    assert forall g :: i < Position(g) ==> after[Position(g) - i - 1] == g;
    assert r.Some? ==> i < Position(r.value) && forall g :: i < Position(g) < Position(r.value) ==> !p(g) by {
      if r.Some? {
        var k :| 0 <= k < |after| && after[k] == r.value && p(after[k]) && forall j :: 0 <= j < k ==> !p(after[j]);
        assert Fields[i + 1 + k] == r.value;
      }
    }
    r
  }

  /** The nearest field before the given one that satisfies the predicate. */
  function PreviousField(field: CardField, p: CardField -> bool): (r: Option<CardField>)
    ensures r.Some? ==> Position(r.value) < Position(field) && p(r.value) &&
                        forall g :: Position(r.value) < Position(g) < Position(field) ==> !p(g)
    ensures r.None? ==> forall g :: Position(g) < Position(field) ==> !p(g)
  {
    var i := Position(field);
    var before := Fields[..i];
    var r := LastWhere(before, p);
    assert forall g :: Position(g) < i ==> before[Position(g)] == g;
    assert r.Some? ==> Position(r.value) < i && forall g :: Position(r.value) < Position(g) < i ==> !p(g) by {
      if r.Some? {
        var k :| 0 <= k < |before| && before[k] == r.value && p(before[k]) && forall j :: k < j < |before| ==> !p(before[j]);
        assert Fields[k] == r.value;
      }
    }
    r
  }

  /** `filedAfter`: the nearest field satisfying the predicate strictly after the given
      one (going forward) or strictly before it (going backward). */
  function FieldAfter(field: CardField, p: CardField -> bool, direction: Direction): (r: Option<CardField>)
    ensures direction == Next && r.Some? ==>
              Position(field) < Position(r.value) && p(r.value) &&
              forall g :: Position(field) < Position(g) < Position(r.value) ==> !p(g)
    ensures direction == Next && r.None? ==> forall g :: Position(field) < Position(g) ==> !p(g)
    ensures direction == Previous && r.Some? ==>
              Position(r.value) < Position(field) && p(r.value) &&
              forall g :: Position(r.value) < Position(g) < Position(field) ==> !p(g)
    ensures direction == Previous && r.None? ==> forall g :: Position(g) < Position(field) ==> !p(g)
  {
    match direction
    case Previous => PreviousField(field, p)
    case Next => NextField(field, p)
  }

  /** The first position of an element in a list that contains it (`firstIndex(where:)`). */
  function ElementIndex(es: seq<Element>, element: Element): (k: nat)
    requires element in es
    ensures k < |es| && es[k] == element
    ensures forall i :: 0 <= i < k ==> es[i] != element
  {
    if es[0] == element then 0
    else
      assert element in es[1..];
      ElementIndex(es[1..], element) + 1
  }

  /** `r` is the neighbour, in `direction`, of the first occurrence `k` of `element`
      among a field's exposed elements `es`. */
  predicate StepsWithin(es: seq<Element>, element: Element, k: int, direction: Direction, r: Option<Element>) {
    && 0 <= k < |es| && es[k] == element
    && (forall i :: 0 <= i < k ==> es[i] != element)
    && (direction == Next ==> k + 1 < |es| && r == Some(es[k + 1]))
    && (direction == Previous ==> 0 < k && r == Some(es[k - 1]))
  }

  /** `accessiblityElementAfter(_:matchingPredicate:direction:)`: with no current
      element, the entry of the first (or last) field satisfying the predicate;
      otherwise a neighbouring exposed element of the field that owns the current one,
      or the entry of the next field in the direction. */
  function ElementAfter(element: Option<Element>, p: CardField -> bool, direction: Direction,
                        elementsOf: CardField -> Option<seq<Element>>): (r: Option<Element>)
    ensures element.None? ==> (r.Some? <==> exists i :: 0 <= i < |Fields| && p(Fields[i]))
    ensures element.Some? ==>
              var owner := OwnerOf(element.value, elementsOf);
              || r == EntryOf(FieldAfter(owner, p, direction), elementsOf, direction)
              || (&& p(owner)
                  && elementsOf(owner).Some?
                  && exists k :: StepsWithin(elementsOf(owner).value, element.value, k, direction, r))
  {
    match element
    case None =>
      EntryOf(if direction == Previous then LastWhere(Fields, p) else FirstWhere(Fields, p), elementsOf, direction)
    case Some(e) =>
      var owner := OwnerOf(e, elementsOf);
      var nextField := FieldAfter(owner, p, direction);
      match elementsOf(owner)
      case None => EntryOf(nextField, elementsOf, direction)
      case Some(es) =>
        if e !in es then EntryOf(nextField, elementsOf, direction)
        else
          var k := ElementIndex(es, e);
          match direction
          case Previous =>
            if p(owner) && k > 0 then
              assert StepsWithin(es, e, k, direction, Some(es[k - 1]));
              Some(es[k - 1])
            else EntryOf(nextField, elementsOf, direction)
          case Next =>
            if p(owner) && k < |es| - 1 then
              assert StepsWithin(es, e, k, direction, Some(es[k + 1]));
              Some(es[k + 1])
            else EntryOf(nextField, elementsOf, direction)
  }

  /** With no current element, `next` enters the first field that satisfies the
      predicate and `previous` the last one; with no such field there is no element. */
  lemma NoCurrentElementEntersOuterField(p: CardField -> bool, direction: Direction,
                                         elementsOf: CardField -> Option<seq<Element>>)
    ensures var r := ElementAfter(None, p, direction, elementsOf);
            && (r.None? <==> forall g :: !p(g))
            && (direction == Next && r.Some? ==>
                  exists f :: p(f) && r == EntryOf(Some(f), elementsOf, Next) && forall g :: Position(g) < Position(f) ==> !p(g))
            && (direction == Previous && r.Some? ==>
                  exists f :: p(f) && r == EntryOf(Some(f), elementsOf, Previous) && forall g :: Position(f) < Position(g) ==> !p(g))
  {
    assert ElementAfter(None, p, direction, elementsOf) ==
           EntryOf(if direction == Previous then LastWhere(Fields, p) else FirstWhere(Fields, p), elementsOf, direction);
    assert (forall g :: !p(g)) <== (forall i :: 0 <= i < |Fields| ==> !p(Fields[i])) by {
      if forall i :: 0 <= i < |Fields| ==> !p(Fields[i]) {
        forall g ensures !p(g) {
          assert Fields[Position(g)] == g;
        }
      }
    }
    if direction == Next {
      var f := FirstWhere(Fields, p);
      if f.Some? {
        var i :| 0 <= i < |Fields| && Fields[i] == f.value && p(Fields[i]) && forall j :: 0 <= j < i ==> !p(Fields[j]);
        assert Position(f.value) == i;
      }
    } else {
      var f := LastWhere(Fields, p);
      if f.Some? {
        var i :| 0 <= i < |Fields| && Fields[i] == f.value && p(Fields[i]) && forall j :: i < j < |Fields| ==> !p(Fields[j]);
        assert Position(f.value) == i;
      }
    }
  }

  /** From a field that exposes no elements of its own, `next` only reaches later
      fields and `previous` only earlier ones, stopping at the nearest field that
      satisfies the predicate. */
  lemma MovesOnlyAwayFromCurrentField(field: CardField, p: CardField -> bool, direction: Direction,
                                      elementsOf: CardField -> Option<seq<Element>>)
    requires elementsOf(field).None?
    requires forall g :: Position(g) < Position(field) ==> !Owns(g, FieldView(field), elementsOf)
    ensures var r := ElementAfter(Some(FieldView(field)), p, direction, elementsOf);
            r.Some? ==>
              exists g :: p(g) && r == EntryOf(Some(g), elementsOf, direction) &&
                          (direction == Next ==> Position(field) < Position(g)) &&
                          (direction == Previous ==> Position(g) < Position(field))
  {
  }

  /** An element that belongs to no field is treated as the card number's: going
      forward it reaches the first later field satisfying the predicate, and going
      backward it finds nothing, since no field precedes the card number. */
  lemma UnownedElementCountsAsCardNumber(e: Element, p: CardField -> bool, elementsOf: CardField -> Option<seq<Element>>)
    requires forall g :: !Owns(g, e, elementsOf)
    ensures ElementAfter(Some(e), p, Previous, elementsOf).None?
    ensures ElementAfter(Some(e), p, Next, elementsOf) == EntryOf(FieldAfter(CardNumber, p, Next), elementsOf, Next)
  {
  }

  /** Inside a field that satisfies the predicate, the rotor steps through the field's
      own elements one at a time before leaving it. */
  lemma StepsThroughOwnElements(field: CardField, es: seq<Element>, k: nat, p: CardField -> bool,
                                elementsOf: CardField -> Option<seq<Element>>)
    requires elementsOf(field) == Some(es) && k < |es| && forall i :: 0 <= i < k ==> es[i] != es[k]
    requires forall g :: Position(g) < Position(field) ==> !Owns(g, es[k], elementsOf)
    requires p(field)
    ensures k + 1 < |es| ==> ElementAfter(Some(es[k]), p, Next, elementsOf) == Some(es[k + 1])
    ensures k > 0 ==> ElementAfter(Some(es[k]), p, Previous, elementsOf) == Some(es[k - 1])
  {
    var e := es[k];
    assert Owns(Fields[Position(field)], e, elementsOf);
    assert OwnerOf(e, elementsOf) == field;
    var j := ElementIndex(es, e);
    assert j == k;
  }

  /** A field whose exposed elements are an empty list does not own its own view, so
      its view counts as the card number's like any unowned element: `previous` finds
      nothing and `next` enters the first field after the card number, wherever the
      field itself sits. */
  lemma EmptyElementListFallsBackToCardNumber(field: CardField, p: CardField -> bool,
                                              elementsOf: CardField -> Option<seq<Element>>)
    requires elementsOf(field) == Some([])
    requires forall g :: g != field ==> !Owns(g, FieldView(field), elementsOf)
    ensures ElementAfter(Some(FieldView(field)), p, Previous, elementsOf).None?
    ensures ElementAfter(Some(FieldView(field)), p, Next, elementsOf) ==
            EntryOf(FieldAfter(CardNumber, p, Next), elementsOf, Next)
  {
    UnownedElementCountsAsCardNumber(FieldView(field), p, elementsOf);
  }

  /** The exposure map in which one field exposes an empty list and every other field
      exposes nothing. */
  function OnlyExposesEmptyList(field: CardField): CardField -> Option<seq<Element>> {
    g => if g == field then Some([]) else None
  }

  /** With such a map on the expiry date, `next` from the expiry date's view goes back
      to the card name. */
  lemma EmptyElementListMovesBackward()
    ensures ElementAfter(Some(FieldView(ExpiryDate)), _ => true, Next, OnlyExposesEmptyList(ExpiryDate)) ==
            Some(FieldView(CardName))
  {
    var elementsOf := OnlyExposesEmptyList(ExpiryDate);
    assert forall g :: g != ExpiryDate ==> elementsOf(g).None?;
    EmptyElementListFallsBackToCardNumber(ExpiryDate, _ => true, elementsOf);
    assert FieldAfter(CardNumber, _ => true, Next) == Some(CardName);
  }

  /** With such a map on the card name, `next` from the card name's view returns the
      same view, so the rotor never gets past it. */
  lemma EmptyElementListStallsRotor()
    ensures ElementAfter(Some(FieldView(CardName)), _ => true, Next, OnlyExposesEmptyList(CardName)) ==
            Some(FieldView(CardName))
  {
    var elementsOf := OnlyExposesEmptyList(CardName);
    assert forall g :: g != CardName ==> elementsOf(g).None?;
    EmptyElementListFallsBackToCardNumber(CardName, _ => true, elementsOf);
    assert FieldAfter(CardNumber, _ => true, Next) == Some(CardName);
  }
}
