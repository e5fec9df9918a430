/**
  Gating the card form's submit button on the validity of every form field.
  `OmiseTextField.isValid` and the view model's `isSubmitButtonEnabled` are not part
  of this model; their answers arrive as inputs.
 */
module SubmitGate {

  /** One of the form's `formFields`, reduced to its `isValid` answer. */
  datatype FormField = FormField(isValid: bool)

  /** The accessibility traits of the submit button that the form touches. */
  datatype AccessibilityTrait = NotEnabled | OtherTrait(name: string)

  datatype SubmitButton = SubmitButton(isEnabled: bool, traits: set<AccessibilityTrait>)

  /** `isInputDataValid`: `formFields.allSatisfy { $0.isValid }`. */
  function IsInputDataValid(formFields: seq<FormField>): (r: bool)
    ensures r <==> forall i :: 0 <= i < |formFields| ==> formFields[i].isValid
  {
    if |formFields| == 0 then true
    else
      var rest := IsInputDataValid(formFields[1..]);
      assert rest <==> forall i :: 1 <= i < |formFields| ==> formFields[i].isValid by {
        forall i | 1 <= i < |formFields|
          ensures formFields[1..][i - 1] == formFields[i]
        {
        }
      }
      formFields[0].isValid && rest
  }

  /** `updateSubmitButtonState`: the button is enabled when every field is valid and
      the view model agrees; the `notEnabled` trait follows field validity alone, and
      no other trait is touched. */
  function UpdateSubmitButtonState(traits: set<AccessibilityTrait>, formFields: seq<FormField>,
                                   viewModelAllows: bool): (r: SubmitButton)
    ensures r.isEnabled <==> viewModelAllows && forall i :: 0 <= i < |formFields| ==> formFields[i].isValid
    ensures NotEnabled in r.traits <==> exists i :: 0 <= i < |formFields| && !formFields[i].isValid
    ensures forall t :: t != NotEnabled ==> (t in r.traits <==> t in traits)
  {
    var valid := IsInputDataValid(formFields);
    SubmitButton(valid && viewModelAllows, if valid then traits - {NotEnabled} else traits + {NotEnabled})
  }

  /** Whenever the submit button ends up enabled, every form field is valid and the
      button does not announce itself as not enabled. */
  lemma EnabledSubmitMeansAllValid(traits: set<AccessibilityTrait>, formFields: seq<FormField>,
                                   viewModelAllows: bool, i: int)
    requires UpdateSubmitButtonState(traits, formFields, viewModelAllows).isEnabled
    requires 0 <= i < |formFields|
    ensures formFields[i].isValid
    ensures NotEnabled !in UpdateSubmitButtonState(traits, formFields, viewModelAllows).traits
  {
  }

  /** One invalid field anywhere keeps the button disabled, whatever the view model says. */
  lemma OneInvalidFieldDisables(traits: set<AccessibilityTrait>, formFields: seq<FormField>,
                                viewModelAllows: bool, i: int)
    requires 0 <= i < |formFields| && !formFields[i].isValid
    ensures !UpdateSubmitButtonState(traits, formFields, viewModelAllows).isEnabled
    ensures !IsInputDataValid(formFields)
  {
  }
}
