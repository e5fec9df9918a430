# Omise iOS SDK: payment-form decision rules in Dafny

This project models the decision logic inside two view controllers of the Omise iOS SDK.

`AuthorizingPaymentViewController` drives a web view through a 3-D Secure or offsite
authorization. It has three rules:

- It starts loading only when it has both an authorized URL and a non-empty list of
  expected return-URL patterns.
- It completes the flow when a navigation reaches a URL that some pattern accepts. A
  pattern accepts a URL when the scheme is equal, the host is equal, and the pattern's
  path is a prefix of the URL's path.
- A non-matching URL with a custom scheme is handed to the system. Every other
  navigation is allowed.

`CreditCardFormViewController` collects card data. The model covers:

- the two `setCreditCardInformation` entry points and the `MM/YY` expiry text;
- gating the submit button on field validity;
- the per-field error labels;
- keyboard navigation over the billing-address inputs;
- the accessibility rotors;
- delegate dispatch for cancel, token and error events, and the `handleErrors` switch.

Everything is written as pure functions over immutable datatypes, in one module per
concern:

| module | file | models |
|---|---|---|
| `Wrappers` | wrappers.dfy | Swift optionals |
| `AuthorizingPayment` | authorizing_payment.dfy | redirect matching, navigation policy, start guard |
| `CardExpiry` | card_expiry.dfy | expiry setters and formatting |
| `SubmitGate` | submit_gate.dfy | `isInputDataValid`, `updateSubmitButtonState` |
| `FieldValidation` | field_validation.dfy | `validationErrorText`, `validateField` |
| `AddressNavigation` | address_navigation.dfy | `input(for:)`, `input(after:)`, `showAllErrors`, `goToFirstInvalidField`, `onKeyboardDoneTapped` |
| `AccessibilityRotor` | accessibility_rotor.dfy | `accessiblityElementAfter` and `filedAfter` |
| `FormDelegates` | form_delegates.dfy | `performCancelingForm`, the `requestToken` completion, `handleError`, `keyboardWillAppear`, `accessibilityPerformMagicTap` |

Some code is not part of this model: `OmiseTextField.validate`, `isValid`,
`CreditCardFormViewModel` (`addressFields`, `error(for:validate:)` and
`isSubmitButtonEnabled`), `Calendar.validExpirationMonthRange` and URL parsing. Each of
these becomes an input of the function that uses it. Sometimes that input is a value,
such as a field list, a validity flag, a month range or pre-parsed URL components.
Sometimes it is a total function, such as a validation function, a rotor predicate or
the accessibility elements each field exposes.

## Model

| member | source | states |
|---|---|---|
| AuthorizingPayment.MatchesAny | OmiseSDK/AuthorizingPaymentViewController.swift:201-205 | The pattern search is true if and only if some pattern has an equal scheme, an equal host and a path that is a prefix of the URL's path. |
| AuthorizingPayment.VerifyPaymentUrl | OmiseSDK/AuthorizingPaymentViewController.swift:196-206 | A URL matches if and only if its components parse and some expected pattern accepts them. A URL whose components do not parse never matches. |
| AuthorizingPayment.Lowercased | OmiseSDK/AuthorizingPaymentViewController.swift:226 | Lower-casing keeps the length and maps each character on its own. Only ASCII capitals change. |
| AuthorizingPayment.DecidePolicy | OmiseSDK/AuthorizingPaymentViewController.swift:212-241 | Every navigation gets exactly one policy. It is cancel if and only if the URL matches a pattern or has a custom scheme. A matching URL, and only a matching URL, is reported to a present delegate as that same URL. A non-matching custom-scheme URL, and only such a URL, is handed off. No navigation is both reported and handed off. An allowed navigation has no side effect. |
| AuthorizingPayment.StartAuthorizingPaymentProcess | OmiseSDK/AuthorizingPaymentViewController.swift:184-194 | A request is loaded if and only if there is an authorized URL and at least one pattern. The request is for that URL, ignores the cache and has a 60-second timeout. |
| AuthorizingPayment.EmptyPatternsNeverComplete | OmiseSDK/AuthorizingPaymentViewController.swift:185-205 | With an empty pattern list, no URL matches, no navigation is reported as completed, and starting is refused. |
| AuthorizingPayment.MatchMonotoneInPatterns | OmiseSDK/AuthorizingPaymentViewController.swift:201-205 | A URL that matches some patterns still matches any pattern list that contains all of them. |
| AuthorizingPayment.PrefixOfExtension | OmiseSDK/AuthorizingPaymentViewController.swift:204 | A prefix of a path stays a prefix when characters are appended to the path. |
| AuthorizingPayment.MatchSurvivesPathExtension | OmiseSDK/AuthorizingPaymentViewController.swift:201-205 | Appending characters to the path of a matching URL keeps it matching. |
| AuthorizingPayment.DocumentedExample | OmiseSDK/AuthorizingPaymentViewController.swift:66-69 | `https://www.example.com/products/12345` matches the pattern with scheme `https`, host `www.example.com` and path `/products/`. |
| AuthorizingPayment.CompletionTakesPrecedence | OmiseSDK/AuthorizingPaymentViewController.swift:213-233 | A matching URL is cancelled, even when its scheme is a custom one, and is reported to the delegate when one is set. It is never handed off. |
| AuthorizingPayment.MixedCaseWebSchemesStayInView | OmiseSDK/AuthorizingPaymentViewController.swift:226-240 | A non-matching URL with scheme `HTTPS` or `Http` is allowed, because the scheme is lower-cased before the comparison. |
| AuthorizingPayment.MissingUrlIsAllowed | OmiseSDK/AuthorizingPaymentViewController.swift:234-240 | A navigation without a URL is allowed. Nothing is reported and nothing is handed off. |
| CardExpiry.ObjcExpiration | OmiseSDK/CreditCardFormViewController.swift:227-248 | The Objective-C setter builds an expiration if and only if the month is in the calendar's valid range and 0 < year < NSNotFound. The expiration keeps both numbers. |
| CardExpiry.Decimal | OmiseSDK/CreditCardFormViewController.swift:217 | `%d` gives one or more digits, and a single digit exactly for values below 10. A positive value has no leading zero. With `DecimalRoundTrip`, this fixes the text for each value. |
| CardExpiry.ZeroPadded2 | OmiseSDK/CreditCardFormViewController.swift:217 | `%02d` gives at least two digits, exactly two below 100, a leading zero below 10, and from 10 on the unpadded `%d` text. |
| CardExpiry.DecimalRoundTrip | OmiseSDK/CreditCardFormViewController.swift:217 | The digits written by `%d` read back as the number written. |
| CardExpiry.ZeroPadded2RoundTrip | OmiseSDK/CreditCardFormViewController.swift:217 | The digits written by `%02d` read back as the number written. |
| CardExpiry.FormatExpiryRoundTrip | OmiseSDK/CreditCardFormViewController.swift:216-217 | The expiry text is two month digits, a slash, and `year % 100` without padding. It reads back as (month, year % 100). It has 4 characters exactly when `year % 100 < 10`, and otherwise 5. |
| CardExpiry.SetCreditCardInformation | OmiseSDK/CreditCardFormViewController.swift:212-218 | The number and name texts are always replaced. The expiry text is written only when an expiration is given with month in 1...12 and year > 0, and it then reads back as (month, year % 100). Its length is 4 when year % 100 < 10 and 5 otherwise, so the year is written without padding (`%d`, not `%02d`). Otherwise the existing expiry text is kept. |
| CardExpiry.SetCreditCardInformationObjc | OmiseSDK/CreditCardFormViewController.swift:227-250 | Number and name are always written. The expiry text is written, reading back as (month, year % 100) without padding, exactly when the month is in the calendar's range and in 1...12 and 0 < year < `NSNotFound`. Otherwise the existing expiry text is kept. |
| CardExpiry.ObjcSetterWritesIffUsable | OmiseSDK/CreditCardFormViewController.swift:227-249 | With the Gregorian range 1...12, the Objective-C entry point writes the expiry text if and only if the month is in 1...12 and the year is positive and not NSNotFound. Otherwise the existing text is kept. |
| CardExpiry.ObjcSetterNeverWritesInvalidMonth | OmiseSDK/CreditCardFormViewController.swift:216-249 | For any calendar range, a changed expiry text implies that the month is in 1...12 and in that range, and that 0 < year < NSNotFound. |
| CardExpiry.SingleDigitYearExample | OmiseSDK/CreditCardFormViewController.swift:217 | Month 1 of year 2005 is written `01/5`. |
| SubmitGate.IsInputDataValid | OmiseSDK/CreditCardFormViewController.swift:135-137 | The input data is valid if and only if every form field is valid. |
| SubmitGate.UpdateSubmitButtonState | OmiseSDK/CreditCardFormViewController.swift:1007-1016 | The button is enabled if and only if every field is valid and the view model allows submission. The not-enabled trait is present if and only if some field is invalid. All other traits are unchanged. |
| SubmitGate.EnabledSubmitMeansAllValid | OmiseSDK/CreditCardFormViewController.swift:1007-1016 | When `updateSubmitButtonState` leaves the button enabled, every field is valid and the button is not marked not-enabled. A finished token request re-enables the button without this check (see `FinishedRequestEnablesSubmitDespiteViewModel`). |
| SubmitGate.OneInvalidFieldDisables | OmiseSDK/CreditCardFormViewController.swift:1007-1009 | One invalid field disables the button, whatever the view model says. |
| FieldValidation.InvalidDataMessage | OmiseSDK/CreditCardFormViewController.swift:787-818 | No invalid-data message of a card field is the `-` placeholder. |
| FieldValidation.ValidationErrorText | OmiseSDK/CreditCardFormViewController.swift:782-828 | `emptyText` gives `-` on every field. `invalidData` on a card field gives that field's message. Any other error on a card field gives its localized description. Every other field gives `-`. |
| FieldValidation.ValidateField | OmiseSDK/CreditCardFormViewController.swift:754-780 | Only the four card fields have a label to update. Passing validation hides the label and keeps its text. A failure sets the error text. The label is visible if and only if validation failed and the text is not `-`. |
| FieldValidation.InvalidCardDataIsShown | OmiseSDK/CreditCardFormViewController.swift:776-818 | An `invalidData` error on a card field is always shown, with that field's message. |
| FieldValidation.EmptyTextIsNeverShown | OmiseSDK/CreditCardFormViewController.swift:776-785 | An `emptyText` error leaves the label hidden, holding `-`. |
| FieldValidation.ShownLabelMeansCardFieldError | OmiseSDK/CreditCardFormViewController.swift:769-780 | A visible label implies a card field whose validation failed with an error other than `emptyText`, and text that is not `-`. |
| AddressNavigation.IndexOf | OmiseSDK/CreditCardFormViewController.swift:1037 | `firstIndex(of:)` gives the first position of the field, or nil if and only if the field is absent. |
| AddressNavigation.IndexOfDistinct | OmiseSDK/CreditCardFormViewController.swift:1036-1046 | In a list without repeats, the index found for a field is its own position, so the recursion of `input(after:)` resumes at the next field. |
| AddressNavigation.InputIndex | OmiseSDK/CreditCardFormViewController.swift:1023-1032 | The search gives the first arranged input whose identifier is the field's raw value, or nil if and only if there is none. |
| AddressNavigation.InputFor | OmiseSDK/CreditCardFormViewController.swift:1023-1032 | `input(for:)` returns the first input carrying the field's identifier, which is the one at `InputIndex`. It returns nil if and only if no input carries it. |
| AddressNavigation.InputAfter | OmiseSDK/CreditCardFormViewController.swift:1034-1048 | The result is the input of the first later address field that accepts typing, reached by skipping only present but disabled inputs. The result is nil if and only if there is no such field, and always nil for an input that is not an address field's. |
| AddressNavigation.NextEnabledSkipsDisabled | OmiseSDK/CreditCardFormViewController.swift:1043-1047 | When the next field's input is present but disabled, the stop found from that field is also the stop from the current one. This is the step of the recursion in `input(after:)`. |
| AddressNavigation.NextEnabledInputIsImmediate | OmiseSDK/CreditCardFormViewController.swift:1043-1044 | When the next field's input accepts typing, it is the next stop. |
| AddressNavigation.FirstInvalidInput | OmiseSDK/CreditCardFormViewController.swift:1119-1127 | The result is the input of the first address field whose input carries an error. It is nil if and only if no field's input carries one. |
| AddressNavigation.ShowAllErrors | OmiseSDK/CreditCardFormViewController.swift:1129-1133 | Each input found for an address field gets the view model's error for its text. Every other view, and every non-error attribute, is unchanged. |
| AddressNavigation.InputIndexIgnoresErrors | OmiseSDK/CreditCardFormViewController.swift:1018-1021 | Changing only errors does not change which input a field finds. `SequentialUpdatesMatchShowAllErrors` needs this. |
| AddressNavigation.UpdateError | OmiseSDK/CreditCardFormViewController.swift:1018-1021 | `updateError(for:)` sets the error of the input the field finds, from the field and that input's text. If no input is found, nothing changes. No other input changes. |
| AddressNavigation.ShowAllErrorsSequentially | OmiseSDK/CreditCardFormViewController.swift:1129-1133 | `updateError(for:)` applied to each address field in order; the inputs keep their number, identifiers, texts and enabled state, and only errors change. |
| AddressNavigation.SequentialUpdatesMatchShowAllErrors | OmiseSDK/CreditCardFormViewController.swift:1129-1133 | Calling `updateError(for:)` for each address field in turn gives the same inputs as one simultaneous update (`ShowAllErrors`), for any field list. |
| AddressNavigation.ShowAllErrorsValidatesEveryField | OmiseSDK/CreditCardFormViewController.swift:1129-1133 | After `showAllErrors`, every address field's input carries exactly the error computed for it. |
| AddressNavigation.OnKeyboardDoneTapped | OmiseSDK/CreditCardFormViewController.swift:1110-1117 | "Done" requests a token if and only if the submit button is enabled. Otherwise the inputs are those `showAllErrors` leaves. The focus is the first invalid field's input among them, and if present it is an address field's input carrying an error. |
| AddressNavigation.ShownErrorMeansRejected | OmiseSDK/CreditCardFormViewController.swift:1129-1133 | After `showAllErrors`, an address field's input carries an error if and only if the view model rejects that input's text. |
| AddressNavigation.FirstInvalidAfterShowAllErrors | OmiseSDK/CreditCardFormViewController.swift:1119-1133 | After `showAllErrors`, the input `goToFirstInvalidField` picks carries its fresh error, and every earlier address field with an input validated clean. |
| AddressNavigation.DoneFocusesFirstFreshError | OmiseSDK/CreditCardFormViewController.swift:1110-1133 | When "done" does not submit, the focused input carries its freshly computed error, and every earlier field validated clean. With no focus, every field validated clean. |
| AccessibilityRotor.Position | OmiseSDK/CreditCardFormViewController.swift:928 | Each card field occurs exactly once in the rotor's field list. |
| AccessibilityRotor.FirstWhere | OmiseSDK/CreditCardFormViewController.swift:934 | `first(where:)` finds the earliest field satisfying the predicate, or nil if and only if none does. |
| AccessibilityRotor.LastWhere | OmiseSDK/CreditCardFormViewController.swift:931 | `reversed().first(where:)` finds the latest field satisfying the predicate, or nil if and only if none does. |
| AccessibilityRotor.EntryOf | OmiseSDK/CreditCardFormViewController.swift:944-948 | A field is entered at its last exposed element going backward and its first going forward. It is entered at its own view when it exposes no list or an empty one. A missing field gives no element. |
| AccessibilityRotor.OwnerOf | OmiseSDK/CreditCardFormViewController.swift:915-921 | An element belongs to the first field that owns it. If no field owns it, it belongs to the card-number field. |
| AccessibilityRotor.FieldAfter | OmiseSDK/CreditCardFormViewController.swift:923-936 | `next` finds the nearest later field satisfying the predicate, and `previous` the nearest earlier one. Nil means that no field in that direction satisfies it. |
| AccessibilityRotor.ElementIndex | OmiseSDK/CreditCardFormViewController.swift:941 | `firstIndex(where:)` finds the first position of the element. |
| AccessibilityRotor.ElementAfter | OmiseSDK/CreditCardFormViewController.swift:897-968 | With no current element, there is a result if and only if some field satisfies the predicate. Otherwise the result is either the entry of the nearest field in the direction past the owner of the current element, or, when the owner satisfies the predicate, the neighbour in that direction of the element's first occurrence among the owner's exposed elements. |
| AccessibilityRotor.NoCurrentElementEntersOuterField | OmiseSDK/CreditCardFormViewController.swift:902-913 | With no current element, `next` enters the first field satisfying the predicate and `previous` the last. There is no result if and only if no field satisfies it. |
| AccessibilityRotor.MovesOnlyAwayFromCurrentField | OmiseSDK/CreditCardFormViewController.swift:915-950 | From a field whose `accessibilityElements` is nil, and whose view no earlier field lists among its elements, `next` reaches only later fields and `previous` only earlier ones. |
| AccessibilityRotor.UnownedElementCountsAsCardNumber | OmiseSDK/CreditCardFormViewController.swift:915-936 | An element owned by no field is treated as the card number's. `next` moves to the first later field satisfying the predicate, and `previous` finds nothing. |
| AccessibilityRotor.EmptyElementListFallsBackToCardNumber | OmiseSDK/CreditCardFormViewController.swift:915-921 | A field whose `accessibilityElements` is an empty array, and whose view no other field lists among its elements, does not own its own view. The view then counts as the card number's, so `previous` finds nothing and `next` enters the first field after the card number. |
| AccessibilityRotor.EmptyElementListMovesBackward | OmiseSDK/CreditCardFormViewController.swift:915-921 | With the always-true predicate, an empty array on the expiry-date field and no other field exposing elements, `next` from its view goes back to the card name. |
| AccessibilityRotor.EmptyElementListStallsRotor | OmiseSDK/CreditCardFormViewController.swift:915-921 | With the always-true predicate, an empty array on the card-name field and no other field exposing elements, `next` from its view returns the same view. |
| AccessibilityRotor.StepsThroughOwnElements | OmiseSDK/CreditCardFormViewController.swift:952-967 | Inside a field that satisfies the predicate, from an element that is the first occurrence of itself in the field's list and that no earlier field lists, the rotor moves to the neighbouring element of the same field. |
| FormDelegates.PerformCancelingForm | OmiseSDK/CreditCardFormViewController.swift:476-496 | Cancel notifies the Swift delegate if there is one. Otherwise it calls the Objective-C delegate's optional cancel method if that delegate implements it. It returns true if and only if some delegate was notified. |
| FormDelegates.HandleError | OmiseSDK/CreditCardFormViewController.swift:579-604 | With `handleErrors`, the error is displayed, the flag is set and no delegate is called. Without it, nothing is displayed, the flag is unchanged, and the Swift delegate is preferred over the Objective-C one. |
| FormDelegates.OnTokenRequestFinished | OmiseSDK/CreditCardFormViewController.swift:523-545 | Nothing happens once the form is gone. Otherwise the submit button and user interaction are enabled unconditionally. A token goes to the Swift delegate, else to the Objective-C one, and displays nothing. An error goes through `handleError`. |
| FormDelegates.AccessibilityPerformMagicTap | OmiseSDK/CreditCardFormViewController.swift:986-993 | A magic tap requests a token, and reports itself handled, if and only if every form field is valid. The view model is not consulted. |
| FormDelegates.FinishedRequestEnablesSubmitDespiteViewModel | OmiseSDK/CreditCardFormViewController.swift:701-705 | With valid fields and a view model that disallows submission, `updateSubmitButtonState` disables the button, but a magic tap still requests a token and the finished request enables the button. |
| FormDelegates.KeyboardWillAppear | OmiseSDK/CreditCardFormViewController.swift:548-553 | A displayed error is dismissed if and only if the flag was set. The flag is always cleared afterwards. |
| FormDelegates.NoFailureCallbackWhenHandlingErrors | OmiseSDK/CreditCardFormViewController.swift:579-604 | With `handleErrors` on, no request outcome reaches a delegate's failure method. |
| FormDelegates.SwiftDelegateShadowsObjc | OmiseSDK/CreditCardFormViewController.swift:482-490 | While a Swift delegate is set, the Objective-C delegate is never called, and cancelling is always handled. |
| FormDelegates.DisplayedErrorDismissedByKeyboard | OmiseSDK/CreditCardFormViewController.swift:548-553 | An error the form displays is dismissed at the next keyboard appearance and not again. |

## Left out

- AuthorizingPayment.Lowercased: only ASCII letters are lower-cased. Swift's Unicode case mapping is not modelled; it matters only for non-ASCII schemes, which can never equal `http` or `https` anyway.
- AuthorizingPayment.VerifyPaymentUrl: `URLComponents(url:resolvingAgainstBaseURL:)` is not modelled. Its result, which may be a failure, is an input (`Url.components`). Paths are compared character by character. Swift compares `hasPrefix` by grapheme cluster, and that difference is not modelled.
- AddressNavigation.InputAfter: requires the address fields to be distinct. The source re-derives the current index with `firstIndex(of:)` at each step, and with a repeated field its recursion need not terminate. The fields are the cases of an enumeration.
- CardExpiry.ObjcSetterWritesIffUsable: assumes the calendar's month range is 1...12. `ObjcSetterNeverWritesInvalidMonth` covers any other range.
- The WebKit side is not modelled: loading requests in `WKWebView`, `UIApplication.shared.open`, and the JavaScript alert, confirm and prompt panels. These are callbacks of the host browser. Hand-off and loading appear only as values in the result.
- The `authorizedURL` `didSet` observer and `viewDidAppear` are not modelled. They call the start guard, which is modelled. The `assertionFailure` in the guard traps only in debug builds. The model treats the refusal as the release-build return.
- Storyboard factories, layout, theming, colours, fonts, the navigation-bar appearance and keyboard inset geometry are not modelled. They are UI toolkit work with no decision logic.
- `os_log` calls, accessibility announcements and animation blocks are not modelled. They have no effect on any decision.
- `requestToken` before the request is not modelled. That is `doneEditing`, the announcement and `startActivityIndicator`, which disables the button and user interaction until the completion runs. Whether the form still exists when the request finishes is an input of `OnTokenRequestFinished`.
- The token request `viewModel.onSubmitButtonPressed` is not modelled. It is a network call into a view model that is not part of this model. Its result is an input of `OnTokenRequestFinished`.
- The banner contents chosen by `displayError` are not modelled. The model records only that the error is displayed.
- Card-brand icons in `updateSupplementaryUI` are not modelled, because card-brand detection is not part of this model.
- CardExpiry.SetCreditCardInformation: the setter's final `updateSupplementaryUI()` also calls `updateSubmitButtonState()`, and that call is not composed into the result. The refresh depends on each field's `isValid` for the new texts, which comes from `OmiseTextField` and is not part of this model. `SubmitGate.UpdateSubmitButtonState` models the refresh on its own.
- Localised message lookup is not modelled. `NSLocalizedString` is represented by the English default value in each call.
- The rotor's treatment of an empty `accessibilityElements` array is stated as the code does it (`EmptyElementListMovesBackward`, `EmptyElementListStallsRotor`). The code in this model never assigns `accessibilityElements`. The text-field classes that might set it (`CardNumberTextField`, `CardExpiryDateTextField` and the others) are not part of this model, so whether an empty array can occur is not known.
- The rotor model assumes that every element a field exposes is an object. The `as? NSObjectProtocol` casts are taken to succeed.
