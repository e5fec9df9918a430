/**
  Which delegate the card form notifies, and when: cancelling the form, the outcome
  of a token request, and the `handleErrors` switch between showing an error in the
  form and reporting it to a delegate. The form keeps a Swift delegate and an
  Objective-C delegate; whenever both are set the Swift one wins.

  The token request itself (`viewModel.onSubmitButtonPressed`) is not part of this
  model; its result arrives as an input, and so does whether the form still exists
  when the request finishes.
 */
module FormDelegates {
  import opened Wrappers
  import opened SubmitGate

  datatype Token = Token(id: string)

  datatype FormError = FormError(localizedDescription: string)

  /** The Objective-C delegate; its cancel method is optional. */
  datatype ObjcDelegate = ObjcDelegate(implementsDidCancel: bool)

  /** The form's `delegate` (Swift) and `__delegate` (Objective-C). */
  datatype Delegates = Delegates(hasSwiftDelegate: bool, objcDelegate: Option<ObjcDelegate>)

  /** A delegate method call made by the form. */
  datatype Callback =
    | SwiftDidSucceed(token: Token)
    | ObjcDidSucceed(token: Token)
    | SwiftDidFail(error: FormError)
    | ObjcDidFail(error: FormError)
    | SwiftDidCancel
    | ObjcDidCancel

  predicate IsFailureCallback(c: Callback) {
    c.SwiftDidFail? || c.ObjcDidFail?
  }

  predicate IsObjcCallback(c: Callback) {
    c.ObjcDidSucceed? || c.ObjcDidFail? || c.ObjcDidCancel?
  }

  /** The result of `performCancelingForm`: whether the request was handled, and the call made. */
  datatype CancelOutcome = CancelOutcome(handled: bool, callback: Option<Callback>)

  /** `performCancelingForm` (also the answer of `accessibilityPerformEscape`). */
  function PerformCancelingForm(delegates: Delegates): (r: CancelOutcome)
    ensures r.handled <==> r.callback.Some?
    ensures r.handled <==> delegates.hasSwiftDelegate ||
                           (delegates.objcDelegate.Some? && delegates.objcDelegate.value.implementsDidCancel)
    ensures delegates.hasSwiftDelegate ==> r.callback == Some(SwiftDidCancel)
    ensures !delegates.hasSwiftDelegate && r.handled ==> r.callback == Some(ObjcDidCancel)
  {
    if delegates.hasSwiftDelegate then CancelOutcome(true, Some(SwiftDidCancel))
    else if delegates.objcDelegate.Some? && delegates.objcDelegate.value.implementsDidCancel then
      CancelOutcome(true, Some(ObjcDidCancel))
    else CancelOutcome(false, None)
  }

  /** What the form does once a token request finishes: the delegate call it makes,
      the error it displays itself, and its `hasErrorMessage` flag afterwards. */
  datatype Reaction = Reaction(callback: Option<Callback>, displayedError: Option<FormError>, hasErrorMessage: bool)

  /** `handleError`: with `handleErrors` on, the form displays the error and raises its
      flag, and no delegate hears of it; with it off, the error goes to the Swift
      delegate, else to the Objective-C one, else nowhere, and the flag is untouched. */
  function HandleError(handleErrors: bool, delegates: Delegates, error: FormError, hasErrorMessage: bool): (r: Reaction)
    ensures handleErrors ==> r == Reaction(None, Some(error), true)
    ensures !handleErrors ==> r.displayedError.None? && r.hasErrorMessage == hasErrorMessage
    ensures !handleErrors && delegates.hasSwiftDelegate ==> r.callback == Some(SwiftDidFail(error))
    ensures !handleErrors && !delegates.hasSwiftDelegate ==>
              (r.callback.Some? <==> delegates.objcDelegate.Some?) &&
              (r.callback.Some? ==> r.callback == Some(ObjcDidFail(error)))
  {
    if !handleErrors then
      var callback :=
        if delegates.hasSwiftDelegate then Some(SwiftDidFail(error))
        else if delegates.objcDelegate.Some? then Some(ObjcDidFail(error))
        else None;
      Reaction(callback, None, hasErrorMessage)
    else
      Reaction(None, Some(error), true)
  }

  /** The outcome of the token request. */
  datatype TokenResult = Success(token: Token) | Failure(error: FormError)

  /** What the completion handler of `requestToken` leaves behind when the form still
      exists: the state `stopActivityIndicator` restores, and the reaction to the result. */
  datatype Completion = Completion(submitEnabled: bool, userInteractionEnabled: bool, reaction: Reaction)

  /** The completion handler of `requestToken`: nothing happens once the form is gone;
      otherwise the activity indicator stops, which enables the submit button and user
      interaction unconditionally, and then a token goes to the Swift delegate, else to
      the Objective-C one, while an error goes through `handleError`. */
  function OnTokenRequestFinished(formAlive: bool, result: TokenResult, handleErrors: bool, delegates: Delegates,
                                  hasErrorMessage: bool): (r: Option<Completion>)
    ensures r.Some? <==> formAlive
    ensures r.Some? ==> r.value.submitEnabled && r.value.userInteractionEnabled
    ensures r.Some? && result.Success? ==>
              r.value.reaction.displayedError.None? && r.value.reaction.hasErrorMessage == hasErrorMessage
    ensures r.Some? && result.Success? ==>
              (r.value.reaction.callback.Some? <==> delegates.hasSwiftDelegate || delegates.objcDelegate.Some?)
    ensures r.Some? && result.Success? && delegates.hasSwiftDelegate ==>
              r.value.reaction.callback == Some(SwiftDidSucceed(result.token))
    ensures r.Some? && result.Success? && !delegates.hasSwiftDelegate && r.value.reaction.callback.Some? ==>
              r.value.reaction.callback == Some(ObjcDidSucceed(result.token))
    ensures r.Some? && result.Failure? ==>
              r.value.reaction == HandleError(handleErrors, delegates, result.error, hasErrorMessage)
  {
    if !formAlive then None
    else
      var reaction :=
        match result
        case Success(token) =>
          var callback :=
            if delegates.hasSwiftDelegate then Some(SwiftDidSucceed(token))
            else if delegates.objcDelegate.Some? then Some(ObjcDidSucceed(token))
            else None;
          Reaction(callback, None, hasErrorMessage)
        case Failure(error) => HandleError(handleErrors, delegates, error, hasErrorMessage);
      Some(Completion(true, true, reaction))
  }

  /** `accessibilityPerformMagicTap`: requests a token, and reports the tap handled,
      exactly when every form field is valid; the view model is not consulted. */
  function AccessibilityPerformMagicTap(formFields: seq<FormField>): (requestsToken: bool)
    ensures requestsToken <==> forall i :: 0 <= i < |formFields| ==> formFields[i].isValid
  {
    IsInputDataValid(formFields)
  }

  /** The submit button's state is kept by `updateSubmitButtonState` only until a request
      finishes: a magic tap starts a request while the view model keeps the button
      disabled, and the finished request leaves the button enabled. */
  lemma FinishedRequestEnablesSubmitDespiteViewModel(traits: set<AccessibilityTrait>, formFields: seq<FormField>,
                                                     result: TokenResult, handleErrors: bool, delegates: Delegates,
                                                     hasErrorMessage: bool)
    requires forall i :: 0 <= i < |formFields| ==> formFields[i].isValid
    ensures !UpdateSubmitButtonState(traits, formFields, false).isEnabled
    ensures AccessibilityPerformMagicTap(formFields)
    ensures OnTokenRequestFinished(true, result, handleErrors, delegates, hasErrorMessage).value.submitEnabled
  {
  }

  /** The result of `keyboardWillAppear`: the flag afterwards, and whether the shown
      error is dismissed. */
  datatype KeyboardReaction = KeyboardReaction(hasErrorMessage: bool, dismissesError: bool)

  /** `keyboardWillAppear`: a displayed error is dismissed once, and the flag cleared. */
  function KeyboardWillAppear(hasErrorMessage: bool): (r: KeyboardReaction)
    ensures !r.hasErrorMessage
    ensures r.dismissesError <==> hasErrorMessage
  {
    if hasErrorMessage then KeyboardReaction(false, true) else KeyboardReaction(false, false)
  }

  /** With `handleErrors` on, no request outcome ever reaches a delegate's failure method. */
  lemma NoFailureCallbackWhenHandlingErrors(formAlive: bool, result: TokenResult, delegates: Delegates,
                                            hasErrorMessage: bool)
    ensures var r := OnTokenRequestFinished(formAlive, result, true, delegates, hasErrorMessage);
            r.None? || r.value.reaction.callback.None? || !IsFailureCallback(r.value.reaction.callback.value)
  {
  }

  /** A Swift delegate shadows the Objective-C one: whatever happens, the Objective-C
      delegate is never called while a Swift delegate is set. */
  lemma SwiftDelegateShadowsObjc(formAlive: bool, result: TokenResult, handleErrors: bool, delegates: Delegates,
                                 hasErrorMessage: bool)
    requires delegates.hasSwiftDelegate
    ensures var r := OnTokenRequestFinished(formAlive, result, handleErrors, delegates, hasErrorMessage);
            r.None? || r.value.reaction.callback.None? || !IsObjcCallback(r.value.reaction.callback.value)
    ensures var c := PerformCancelingForm(delegates);
            c.callback.Some? && !IsObjcCallback(c.callback.value)
  {
  }

  /** An error the form displays itself is dismissed the next time the keyboard
      appears, and only then. */
  lemma DisplayedErrorDismissedByKeyboard(delegates: Delegates, error: FormError, hasErrorMessage: bool)
    ensures var r := HandleError(true, delegates, error, hasErrorMessage);
            KeyboardWillAppear(r.hasErrorMessage).dismissesError &&
            !KeyboardWillAppear(KeyboardWillAppear(r.hasErrorMessage).hasErrorMessage).dismissesError
  {
  }
}
