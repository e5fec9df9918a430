/**
  Keyboard navigation over the billing-address inputs of the card form: finding the
  input of a field, moving to the next input that accepts typing, showing every
  field's error, and focusing the first field that has one.

  `viewModel.addressFields` and `viewModel.error(for:validate:)` are not part of this
  model; the field list and the validation function arrive as inputs. A field is
  identified by its raw value, which is also the identifier of its input view.
 */
module AddressNavigation {
  import opened Wrappers

  /** A `TextFieldView` among the stack views' arranged subviews. */
  datatype TextFieldView = TextFieldView(identifier: string, text: string, interactionEnabled: bool, error: Option<string>)

  /** What tapping "done" on the keyboard leads to: either the token request, or the
      inputs with every field's error refreshed and the input that becomes first responder. */
  datatype DoneOutcome = RequestToken | ShowErrors(inputs: seq<TextFieldView>, focus: Option<TextFieldView>)

  /** The address fields are the distinct cases of an enumeration. */
  predicate Distinct(fields: seq<string>) {
    forall i, j :: 0 <= i < j < |fields| ==> fields[i] != fields[j]
  }

  /** `addressFields.firstIndex(of:)`. */
  function IndexOf(fields: seq<string>, field: string): (r: Option<nat>)
    ensures r.None? <==> field !in fields
    ensures r.Some? ==> r.value < |fields| && fields[r.value] == field && field !in fields[..r.value]
  {
    if |fields| == 0 then None
    else if fields[0] == field then Some(0)
    else match IndexOf(fields[1..], field)
      case None => None
      case Some(i) =>
        assert fields[..i + 1] == [fields[0]] + fields[1..][..i];
        Some(i + 1)
  }

  /** In a list without repetitions, the first index of an element is its position. */
  lemma IndexOfDistinct(fields: seq<string>, i: int)
    requires Distinct(fields) && 0 <= i < |fields|
    ensures IndexOf(fields, fields[i]) == Some(i)
  {
  }

  /** The position of the first input whose identifier is `field`. */
  function InputIndex(inputs: seq<TextFieldView>, field: string): (r: Option<nat>)
    ensures r.None? <==> forall k :: 0 <= k < |inputs| ==> inputs[k].identifier != field
    ensures r.Some? ==> r.value < |inputs| && inputs[r.value].identifier == field
    ensures r.Some? ==> forall k :: 0 <= k < r.value ==> inputs[k].identifier != field
  {
    if |inputs| == 0 then None
    else if inputs[0].identifier == field then Some(0)
    else match InputIndex(inputs[1..], field)
      case None =>
        assert forall k :: 1 <= k < |inputs| ==> inputs[k] == inputs[1..][k - 1];
        None
      case Some(i) =>
        assert forall k :: 1 <= k < |inputs| ==> inputs[k] == inputs[1..][k - 1];
        Some(i + 1)
  }

  /** `input(for:)`: the first input whose identifier is the field's raw value. */
  function InputFor(inputs: seq<TextFieldView>, field: string): (r: Option<TextFieldView>)
    ensures r.Some? ==> r.value in inputs && r.value.identifier == field
    ensures r.None? <==> forall k :: 0 <= k < |inputs| ==> inputs[k].identifier != field
    ensures r.Some? ==> InputIndex(inputs, field).Some? && r.value == inputs[InputIndex(inputs, field).value]
  {
    match InputIndex(inputs, field)
    case None => None
    case Some(k) => Some(inputs[k])
  }

  /** Every field strictly between positions `i` and `k` has an input, and that input
      does not accept typing. */
  predicate DisabledBetween(fields: seq<string>, inputs: seq<TextFieldView>, i: int, k: int)
    requires 0 <= i && k <= |fields|
  {
    forall j :: i < j < k ==> InputFor(inputs, fields[j]).Some? && !InputFor(inputs, fields[j]).value.interactionEnabled
  }

  /** Position `k` holds the first field after position `i` whose input accepts typing,
      reached by skipping only disabled inputs. */
  predicate NextEnabledAt(fields: seq<string>, inputs: seq<TextFieldView>, i: int, k: int) {
    && 0 <= i < k < |fields|
    && DisabledBetween(fields, inputs, i, k)
    && InputFor(inputs, fields[k]).Some?
    && InputFor(inputs, fields[k]).value.interactionEnabled
  }

  /** A stop found after a disabled input is also the next stop before it. */
  lemma NextEnabledSkipsDisabled(fields: seq<string>, inputs: seq<TextFieldView>, i: nat, k: int)
    requires i + 1 < |fields|
    requires InputFor(inputs, fields[i + 1]).Some? && !InputFor(inputs, fields[i + 1]).value.interactionEnabled
    requires NextEnabledAt(fields, inputs, i + 1, k)
    ensures NextEnabledAt(fields, inputs, i, k)
  {
    forall j | i < j < k
      ensures InputFor(inputs, fields[j]).Some? && !InputFor(inputs, fields[j]).value.interactionEnabled
    {
      if j > i + 1 {
        assert i + 1 < j < k;
      }
    }
  }

  /** The recursion measure of `input(after:)`: the number of fields from the input's
      own field to the end. */
  function Remaining(fields: seq<string>, input: TextFieldView): nat {
    match IndexOf(fields, input.identifier)
    case None => 0
    case Some(i) => |fields| - i
  }

  /** `input(after:)`: the input of the next address field, skipping inputs that do
      not accept typing; nil when the input is not an address field's, when the list
      ends, or when a later field has no input. */
  function InputAfter(fields: seq<string>, inputs: seq<TextFieldView>, input: TextFieldView): (r: Option<TextFieldView>)
    requires Distinct(fields)
    ensures IndexOf(fields, input.identifier).None? ==> r.None?
    ensures r.Some? ==> exists k :: NextEnabledAt(fields, inputs, IndexOf(fields, input.identifier).value, k) &&
                                    r == InputFor(inputs, fields[k])
    ensures r.None? && IndexOf(fields, input.identifier).Some? ==>
              forall k :: !NextEnabledAt(fields, inputs, IndexOf(fields, input.identifier).value, k)
    decreases Remaining(fields, input)
  {
    match IndexOf(fields, input.identifier)
    case None => None
    case Some(i) =>
      if i + 1 >= |fields| then None
      else match InputFor(inputs, fields[i + 1])
        case None =>
          None
        case Some(next) =>
          if next.interactionEnabled then
            assert NextEnabledAt(fields, inputs, i, i + 1);
            Some(next)
          else
            IndexOfDistinct(fields, i + 1);
            var r := InputAfter(fields, inputs, next);
            assert r.Some? ==> exists k :: NextEnabledAt(fields, inputs, i, k) && r == InputFor(inputs, fields[k]) by {
              if r.Some? {
                var k :| NextEnabledAt(fields, inputs, i + 1, k) && r == InputFor(inputs, fields[k]);
                NextEnabledSkipsDisabled(fields, inputs, i, k);
              }
            }
            assert r.None? ==> forall k :: !NextEnabledAt(fields, inputs, i, k) by {
              if r.None? {
                forall k | NextEnabledAt(fields, inputs, i, k) ensures false {
                  assert k != i + 1;
                  assert NextEnabledAt(fields, inputs, i + 1, k);
                }
              }
            }
            r
  }

  /** The field's input exists and currently carries an error. */
  predicate HasError(inputs: seq<TextFieldView>, field: string) {
    InputFor(inputs, field).Some? && InputFor(inputs, field).value.error.Some?
  }

  /** The position of the first field, from `from` on, that satisfies `p`. */
  function FirstFieldFrom(fields: seq<string>, p: string -> bool, from: nat): (r: Option<nat>)
    requires from <= |fields|
    decreases |fields| - from
    ensures r.None? <==> forall k :: from <= k < |fields| ==> !p(fields[k])
    ensures r.Some? ==> from <= r.value < |fields| && p(fields[r.value]) &&
                        forall j :: from <= j < r.value ==> !p(fields[j])
  {
    if from == |fields| then None
    else if p(fields[from]) then Some(from)
    else FirstFieldFrom(fields, p, from + 1)
  }

  /** `goToFirstInvalidField`: the input of the first address field that has an input
      carrying an error, which then becomes first responder. */
  function FirstInvalidInput(fields: seq<string>, inputs: seq<TextFieldView>): (r: Option<TextFieldView>)
    ensures r.None? <==> forall k :: 0 <= k < |fields| ==> !HasError(inputs, fields[k])
    ensures r.Some? ==> exists k :: 0 <= k < |fields| && HasError(inputs, fields[k]) && r == InputFor(inputs, fields[k]) &&
                                    forall j :: 0 <= j < k ==> !HasError(inputs, fields[j])
  {
    match FirstFieldFrom(fields, f => HasError(inputs, f), 0)
    case None => None
    case Some(k) => InputFor(inputs, fields[k])
  }

  /** Whether position `k` holds the input that `input(for:)` finds for some address field. */
  predicate IsFieldInput(fields: seq<string>, inputs: seq<TextFieldView>, k: int)
    requires 0 <= k < |inputs|
  {
    inputs[k].identifier in fields && InputIndex(inputs, inputs[k].identifier) == Some(k)
  }

  /** `showAllErrors`: every address field's input gets the error the view model reports
      for its text; every other view is left as it was. */
  function ShowAllErrors(fields: seq<string>, inputs: seq<TextFieldView>,
                         validate: (string, string) -> Option<string>): (r: seq<TextFieldView>)
    ensures |r| == |inputs|
    ensures forall k :: 0 <= k < |inputs| ==> r[k] == inputs[k].(error := r[k].error)
    ensures forall k :: 0 <= k < |inputs| && !IsFieldInput(fields, inputs, k) ==> r[k] == inputs[k]
    ensures forall k :: 0 <= k < |inputs| && IsFieldInput(fields, inputs, k) ==>
              r[k].error == validate(inputs[k].identifier, inputs[k].text)
  {
    seq(|inputs|, k requires 0 <= k < |inputs| =>
      if IsFieldInput(fields, inputs, k) then inputs[k].(error := validate(inputs[k].identifier, inputs[k].text))
      else inputs[k])
  }

  /** Changing only the errors of the inputs does not change which input a field finds.
      This is why the sequential `updateError` calls of `showAllErrors` can be modelled
      as one simultaneous update (`SequentialUpdatesMatchShowAllErrors`). */
  lemma {:induction false} InputIndexIgnoresErrors(a: seq<TextFieldView>, b: seq<TextFieldView>, field: string)
    requires |a| == |b|
    requires forall k :: 0 <= k < |a| ==> b[k] == a[k].(error := b[k].error)
    ensures InputIndex(a, field) == InputIndex(b, field)
  {
    if |a| > 0 && a[0].identifier != field {
      assert b[0].identifier == a[0].identifier;
      InputIndexIgnoresErrors(a[1..], b[1..], field);
    }
  }

  /** `updateError(for:)`: the input the field finds, if any, gets the error the view
      model reports for the field and the input's text; nothing else changes. */
  function UpdateError(inputs: seq<TextFieldView>, field: string,
                       validate: (string, string) -> Option<string>): (r: seq<TextFieldView>)
    ensures |r| == |inputs|
    ensures InputIndex(inputs, field).None? ==> r == inputs
    ensures InputIndex(inputs, field).Some? ==>
              var k := InputIndex(inputs, field).value;
              && r[k] == inputs[k].(error := validate(field, inputs[k].text))
              && forall j :: 0 <= j < |inputs| && j != k ==> r[j] == inputs[j]
  {
    match InputIndex(inputs, field)
    case None => inputs
    case Some(k) => inputs[k := inputs[k].(error := validate(field, inputs[k].text))]
  }

  /** The loop of `showAllErrors` as written: `updateError(for:)` for each address field
      in turn, each call seeing the inputs the previous calls left. */
  function ShowAllErrorsSequentially(fields: seq<string>, inputs: seq<TextFieldView>,
                                     validate: (string, string) -> Option<string>): (r: seq<TextFieldView>)
    ensures |r| == |inputs|
    ensures forall k :: 0 <= k < |r| ==> r[k] == inputs[k].(error := r[k].error)
  {
    if |fields| == 0 then inputs
    else UpdateError(ShowAllErrorsSequentially(fields[..|fields| - 1], inputs, validate), fields[|fields| - 1], validate)
  }

  /** The sequential loop and the simultaneous update agree on every input. */
  lemma {:induction false} SequentialUpdatesMatchShowAllErrors(fields: seq<string>, inputs: seq<TextFieldView>,
                                                               validate: (string, string) -> Option<string>)
    ensures ShowAllErrorsSequentially(fields, inputs, validate) == ShowAllErrors(fields, inputs, validate)
  {
    if |fields| > 0 {
      var init := fields[..|fields| - 1];
      var f := fields[|fields| - 1];
      assert fields == init + [f];
      SequentialUpdatesMatchShowAllErrors(init, inputs, validate);
      var before := ShowAllErrors(init, inputs, validate);
      InputIndexIgnoresErrors(inputs, before, f);
      var after := UpdateError(before, f, validate);
      var expected := ShowAllErrors(fields, inputs, validate);
      forall k | 0 <= k < |inputs|
        ensures after[k] == expected[k]
      {
        assert inputs[k].identifier in fields <==> inputs[k].identifier in init || inputs[k].identifier == f;
      }
    }
  }

  /** After `showAllErrors`, the input every address field finds carries exactly the
      error the view model reports for that field and the input's text. */
  lemma ShowAllErrorsValidatesEveryField(fields: seq<string>, inputs: seq<TextFieldView>,
                                         validate: (string, string) -> Option<string>, field: string)
    requires field in fields
    ensures var r := ShowAllErrors(fields, inputs, validate);
            && (InputFor(r, field).Some? <==> InputFor(inputs, field).Some?)
            && (InputFor(r, field).Some? ==>
                  InputFor(r, field).value == InputFor(inputs, field).value.(error := validate(field, InputFor(inputs, field).value.text)))
  {
    var r := ShowAllErrors(fields, inputs, validate);
    InputIndexIgnoresErrors(inputs, r, field);
    if InputIndex(inputs, field).Some? {
      assert IsFieldInput(fields, inputs, InputIndex(inputs, field).value);
    }
  }

  /** `onKeyboardDoneTapped(input:)`: an enabled submit button requests the token;
      otherwise every error is shown and the first invalid field is focused. */
  function OnKeyboardDoneTapped(submitEnabled: bool, fields: seq<string>, inputs: seq<TextFieldView>,
                                validate: (string, string) -> Option<string>): (r: DoneOutcome)
    ensures r.RequestToken? <==> submitEnabled
    ensures r.ShowErrors? ==> |r.inputs| == |inputs|
    ensures r.ShowErrors? && r.focus.Some? ==> r.focus.value.error.Some? && r.focus.value.identifier in fields
    ensures r.ShowErrors? ==> r.inputs == ShowAllErrors(fields, inputs, validate)
    ensures r.ShowErrors? ==> r.focus == FirstInvalidInput(fields, r.inputs)
  {
    if submitEnabled then RequestToken
    else
      var shown := ShowAllErrors(fields, inputs, validate);
      ShowErrors(shown, FirstInvalidInput(fields, shown))
  }

  /** After `showAllErrors`, a field's input carries an error exactly when the view
      model rejects that input's text. */
  lemma ShownErrorMeansRejected(fields: seq<string>, inputs: seq<TextFieldView>,
                                validate: (string, string) -> Option<string>)
    ensures forall j :: 0 <= j < |fields| ==>
              (HasError(ShowAllErrors(fields, inputs, validate), fields[j]) <==>
                 InputFor(inputs, fields[j]).Some? && validate(fields[j], InputFor(inputs, fields[j]).value.text).Some?)
  {
    forall j | 0 <= j < |fields|
      ensures HasError(ShowAllErrors(fields, inputs, validate), fields[j]) <==>
                InputFor(inputs, fields[j]).Some? && validate(fields[j], InputFor(inputs, fields[j]).value.text).Some?
    {
      ShowAllErrorsValidatesEveryField(fields, inputs, validate, fields[j]);
    }
  }

  /** The input `goToFirstInvalidField` focuses after `showAllErrors` carries its fresh
      error, and every earlier address field with an input validated clean. */
  lemma FirstInvalidAfterShowAllErrors(fields: seq<string>, inputs: seq<TextFieldView>,
                                       validate: (string, string) -> Option<string>)
    ensures var focus := FirstInvalidInput(fields, ShowAllErrors(fields, inputs, validate));
            focus.Some? ==>
              && focus.value.error == validate(focus.value.identifier, focus.value.text)
              && exists k :: (0 <= k < |fields| && focus.value.identifier == fields[k] &&
                              forall j :: 0 <= j < k && InputFor(inputs, fields[j]).Some? ==>
                                validate(fields[j], InputFor(inputs, fields[j]).value.text).None?)
  {
    var shown := ShowAllErrors(fields, inputs, validate);
    var focus := FirstInvalidInput(fields, shown);
    if focus.Some? {
      var k :| 0 <= k < |fields| && HasError(shown, fields[k]) && focus == InputFor(shown, fields[k]) &&
               forall j :: 0 <= j < k ==> !HasError(shown, fields[j]);
      var original := InputFor(inputs, fields[k]);
      ShowAllErrorsValidatesEveryField(fields, inputs, validate, fields[k]);
      assert focus.value == original.value.(error := validate(fields[k], original.value.text));
      forall j | 0 <= j < k && InputFor(inputs, fields[j]).Some?
        ensures validate(fields[j], InputFor(inputs, fields[j]).value.text).None?
      {
        ShowAllErrorsValidatesEveryField(fields, inputs, validate, fields[j]);
        assert !HasError(shown, fields[j]);
      }
    }
  }

  /** When "done" does not submit, the focused input is one whose freshly computed error
      is present, and every earlier address field with an input validated clean. */
  lemma DoneFocusesFirstFreshError(fields: seq<string>, inputs: seq<TextFieldView>,
                                   validate: (string, string) -> Option<string>)
    ensures var r := OnKeyboardDoneTapped(false, fields, inputs, validate);
            && (r.focus.Some? ==> r.focus.value.error == validate(r.focus.value.identifier, r.focus.value.text))
            && (r.focus.Some? ==>
                  exists k :: (0 <= k < |fields| && r.focus.value.identifier == fields[k] &&
                               forall j :: 0 <= j < k && InputFor(inputs, fields[j]).Some? ==>
                                 validate(fields[j], InputFor(inputs, fields[j]).value.text).None?))
            && (r.focus.None? ==>
                  forall j :: 0 <= j < |fields| && InputFor(inputs, fields[j]).Some? ==>
                    validate(fields[j], InputFor(inputs, fields[j]).value.text).None?)
  {
    FirstInvalidAfterShowAllErrors(fields, inputs, validate);
    ShownErrorMeansRejected(fields, inputs, validate);
  }

  /** A field whose input accepts typing right after the current one is always the
      next stop. */
  lemma NextEnabledInputIsImmediate(fields: seq<string>, inputs: seq<TextFieldView>, i: int)
    requires Distinct(fields) && 0 <= i && i + 1 < |fields|
    requires InputFor(inputs, fields[i]).Some?
    requires InputFor(inputs, fields[i + 1]).Some? && InputFor(inputs, fields[i + 1]).value.interactionEnabled
    ensures InputAfter(fields, inputs, InputFor(inputs, fields[i]).value) == InputFor(inputs, fields[i + 1])
  {
    IndexOfDistinct(fields, i);
    assert IndexOf(fields, InputFor(inputs, fields[i]).value.identifier) == Some(i);
  }
}
