/**
  The per-field error labels of the card form: which text a validation error shows
  under which field, and whether the label is visible. `OmiseTextField.validate()`
  is not part of this model; its outcome arrives as an input.
 */
module FieldValidation {
  import opened Wrappers

  /** The text field being validated: one of the four card fields, or any other. */
  datatype TextField = CardNumberField | CardNameField | ExpiryDateField | SecureCodeField | OtherTextField(id: string)

  /** The cases of `OmiseTextFieldValidationError` the form distinguishes, and any other error. */
  datatype ErrorKind = EmptyText | InvalidData | OtherError

  /** An error thrown by `validate()`, with its `localizedDescription`. */
  datatype ValidationError = ValidationError(kind: ErrorKind, localizedDescription: string)

  /** An error label: its text and whether it is shown (alpha 1) or hidden (alpha 0). */
  datatype ErrorLabel = ErrorLabel(text: string, visible: bool)

  /** The placeholder that keeps an empty error label's height. */
  const Placeholder: string := "-"

  /** The fields that have an associated error label (`associatedErrorLabelOf`). */
  predicate IsCardField(field: TextField) {
    !field.OtherTextField?
  }

  /** The default English text of each card field's invalid-data message. */
  function InvalidDataMessage(field: TextField): (m: string)
    requires IsCardField(field)
    ensures m != Placeholder
  {
    match field
    case CardNumberField => "Credit card number is invalid"
    case CardNameField => "Card holder name is invalid"
    case ExpiryDateField => "Card expiry date is invalid"
    case SecureCodeField => "CVV code is invalid"
  }

  /** `validationErrorText(for:error:)`. */
  function ValidationErrorText(field: TextField, error: ValidationError): (r: string)
    ensures error.kind == EmptyText ==> r == Placeholder
    ensures !IsCardField(field) ==> r == Placeholder
    ensures IsCardField(field) && error.kind == InvalidData ==> r == InvalidDataMessage(field)
    ensures IsCardField(field) && error.kind == OtherError ==> r == error.localizedDescription
  {
    match error.kind
    case EmptyText => Placeholder
    case InvalidData => if IsCardField(field) then InvalidDataMessage(field) else Placeholder
    case OtherError => if IsCardField(field) then error.localizedDescription else Placeholder
  }

  /** `validateField`: a field without an error label changes nothing (None); a field
      that validates hides its label and keeps its text; a field that fails shows the
      error text, visible unless it is the placeholder. */
  function ValidateField(field: TextField, outcome: Option<ValidationError>, current: ErrorLabel): (r: Option<ErrorLabel>)
    ensures r.Some? <==> IsCardField(field)
    ensures r.Some? && outcome.None? ==> r.value == current.(visible := false)
    ensures r.Some? && outcome.Some? ==> r.value.text == ValidationErrorText(field, outcome.value)
    ensures r.Some? ==> (r.value.visible <==> outcome.Some? && r.value.text != Placeholder)
  {
    if !IsCardField(field) then None
    else match outcome
      case None => Some(current.(visible := false))
      case Some(error) =>
        var text := ValidationErrorText(field, error);
        Some(ErrorLabel(text, text != Placeholder))
  }

  /** An invalid-data error on a card field is always shown, with that field's message. */
  lemma InvalidCardDataIsShown(field: TextField, description: string, current: ErrorLabel)
    requires IsCardField(field)
    ensures ValidateField(field, Some(ValidationError(InvalidData, description)), current)
            == Some(ErrorLabel(InvalidDataMessage(field), true))
  {
  }

  /** An empty-text error is never shown: the label keeps the placeholder, hidden. */
  lemma EmptyTextIsNeverShown(field: TextField, description: string, current: ErrorLabel)
    ensures var r := ValidateField(field, Some(ValidationError(EmptyText, description)), current);
            r.None? || r.value == ErrorLabel(Placeholder, false)
  {
  }

  /** A label is shown only for a failed validation on a card field, and the text it
      shows is never the placeholder. */
  lemma ShownLabelMeansCardFieldError(field: TextField, outcome: Option<ValidationError>, current: ErrorLabel)
    requires var r := ValidateField(field, outcome, current); r.Some? && r.value.visible
    ensures IsCardField(field) && outcome.Some? && outcome.value.kind != EmptyText
    ensures ValidateField(field, outcome, current).value.text != Placeholder
  {
  }
}
