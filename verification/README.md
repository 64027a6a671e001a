# RadioList: a verified model of the GOV.UK radio-list control

This project models `RadioList`, a Power Apps component (PCF control) that renders
a GOV.UK Design System radio group on a Power Pages form and validates it.
The control keeps the selected option values. It can be switched into
validation mode. When validation is on and nothing is selected, it shows the
error "Select <field identifier>" on the form group. It registers itself in
the page-wide registry `window.HSL.PCFRegistrar`. It also adds a page
validator to `window.Page_Validators`, whose `evaluationfunction` feeds the
page's validation summary.

The model has five modules:

- `Tokens`: the `aria-describedby` attribute as JavaScript sees it.
  `split(" ")` keeps empty tokens, and `join(" ")` of an empty list is `""`.
  The module also covers `indexOf`, `splice(i, 1)` and `push`.
- `Text`: `firstCharLowerCase`.
- `Messages`: the "Select …" message and the summary link the validator
  publishes.
- `Presentation`: the error presentation as a value (`ErrorView`). It holds
  the form group's classes, the fieldset's children, the fieldset's
  `aria-describedby` and the last message shown. `Hide` and `Show` say what
  `HideError` and `ShowError` do to it. The lemmas state what they promise,
  including the invariant `Consistent` the control keeps: at most one error
  span and one `errorMessage` token, both present exactly when the error
  styling is on.
- `RadioListControl`: the control as a `class`. Its methods update its fields
  in place and are proved against `Hide` and `Show`. The page globals form a
  `Window` object, and a `Validator` class stands for the validator span with
  its `evaluationfunction`.

The DOM is abstracted as follows:

- The form group's class list is a set of strings.
- The fieldset's children are a sequence of `Node`s. An error span is
  `ErrorSpan(html)`, and the radios div is `RadiosDiv`.
- The attribute is an `Option<string>`; `None` means absent.
- `document.getElementById("errorMessage")` finds the first error span in the
  fieldset. `radiosDiv.before(span)` inserts the span just before the radios
  div.

## Model

| member | source | states |
|---|---|---|
| Text.FirstCharLowerCase | pcf/HSL.GovUkDesignSytem/TextInput/TextInput/index.ts:255-258 | the result has the input's length; the empty string maps to the empty string |
| Text.FirstCharLowerCaseSpec | pcf/HSL.GovUkDesignSytem/TextInput/TextInput/index.ts:255-258 | only the first character changes, and it comes out lower-cased; the tail is kept |
| Text.FirstCharLowerCaseIdempotent | pcf/HSL.GovUkDesignSytem/TextInput/TextInput/index.ts:255-258 | lower-casing the first character twice is doing it once |
| Text.FirstCharLowerCaseFixed | pcf/HSL.GovUkDesignSytem/TextInput/TextInput/index.ts:255-258 | a label that is empty or already starts with a non-capital is returned unchanged |
| Text.LowerChar | pcf/HSL.GovUkDesignSytem/TextInput/TextInput/index.ts:257 | the result is never an upper-case letter; each capital maps to the letter 32 code points higher, everything else is kept |
| Messages.NothingSelectedMessage | pcf/HSL.GovUkDesignSytem/TextInput/TextInput/index.ts:331 | `'Select ' + firstCharLowerCase(identifier)`: as long as "Select " plus the identifier |
| Messages.NothingSelectedMessageSpec | pcf/HSL.GovUkDesignSytem/TextInput/TextInput/index.ts:331 | the message is "Select " followed by the identifier with its first character lower-cased and the rest kept |
| Messages.SummaryLink | pcf/HSL.GovUkDesignSytem/TextInput/TextInput/index.ts:310-311 | the link is the opening tag for the container, then the message unchanged, then `</a>` |
| Messages.SummaryLinkTarget | pcf/HSL.GovUkDesignSytem/TextInput/TextInput/index.ts:311 | the link starts with `<a href='#` + the container label + `'` |
| Messages.SummaryLinkRoundTrip | pcf/HSL.GovUkDesignSytem/TextInput/TextInput/index.ts:310-311 | the message can be read back from the link, so different messages give different links |
| Tokens.Split | pcf/HSL.GovUkDesignSytem/TextInput/TextInput/index.ts:211 | `split(" ")` yields one token more than there are spaces |
| Tokens.SplitSpaceFree | pcf/HSL.GovUkDesignSytem/TextInput/TextInput/index.ts:211 | no token produced by `split(" ")` contains a space |
| Tokens.Join | pcf/HSL.GovUkDesignSytem/TextInput/TextInput/index.ts:218 | `join(" ")`: the empty list gives "", and a non-empty list's text starts with its first token |
| Tokens.WithoutSpec | pcf/HSL.GovUkDesignSytem/TextInput/TextInput/index.ts:239-247 | defines the reference `Without(ts, x)` the token properties are stated in: exactly the tokens of `ts` other than `x` |
| Tokens.JoinSplit | pcf/HSL.GovUkDesignSytem/TextInput/TextInput/index.ts:240-247 | `join(" ")` after `split(" ")` gives the attribute back unchanged |
| Tokens.SplitJoin | pcf/HSL.GovUkDesignSytem/TextInput/TextInput/index.ts:218 | a non-empty list of space-free tokens, joined and split again, is the same list |
| Tokens.SplitJoinEmpty | pcf/HSL.GovUkDesignSytem/TextInput/TextInput/index.ts:247 | an empty list is written as "" and read back as one empty token |
| Tokens.IndexOf | pcf/HSL.GovUkDesignSytem/TextInput/TextInput/index.ts:241 | `indexOf` is -1 exactly when the token is absent, and otherwise an index of the list |
| Tokens.IndexOfSpec | pcf/HSL.GovUkDesignSytem/TextInput/TextInput/index.ts:241 | the index found holds the token, and no earlier entry does |
| Tokens.IndexOfPushed | pcf/HSL.GovUkDesignSytem/TextInput/TextInput/index.ts:215 | a token pushed onto a list that lacked it is found at the end |
| Tokens.RemoveAt | pcf/HSL.GovUkDesignSytem/TextInput/TextInput/index.ts:244 | `splice(i, 1)` shortens the list by one |
| Tokens.RemoveAtSpec | pcf/HSL.GovUkDesignSytem/TextInput/TextInput/index.ts:244 | `splice(i, 1)` keeps the entries before `i` and shifts those after it down by one |
| Tokens.RemoveFirstOccurrence | pcf/HSL.GovUkDesignSytem/TextInput/TextInput/index.ts:241-245 | splicing at `indexOf(x)` removes exactly one `x` and keeps all other tokens in order |
| Tokens.PushOccurrence | pcf/HSL.GovUkDesignSytem/TextInput/TextInput/index.ts:214-216 | `push(x)` adds one `x` and leaves the other tokens as they were |
| Presentation.RemoveFirstError | pcf/HSL.GovUkDesignSytem/TextInput/TextInput/index.ts:235-236 | removing the error span never removes the radios div |
| Presentation.ErrorCountZero | pcf/HSL.GovUkDesignSytem/TextInput/TextInput/index.ts:235-236 | defines `ErrorCount` as the number of error spans: zero exactly when no child is an error span |
| Presentation.NonErrorsMember | pcf/HSL.GovUkDesignSytem/TextInput/TextInput/index.ts:235-236 | defines `NonErrors`: exactly the children that are not error spans |
| Presentation.RemoveFirstErrorSpec | pcf/HSL.GovUkDesignSytem/TextInput/TextInput/index.ts:235-236 | one error span fewer (none stays none), every other child kept in order, nothing changes without one |
| Presentation.InsertBeforeRadios | pcf/HSL.GovUkDesignSytem/TextInput/TextInput/index.ts:206 | `radiosDiv.before(x)` adds exactly one node |
| Presentation.InsertBeforeRadiosSpec | pcf/HSL.GovUkDesignSytem/TextInput/TextInput/index.ts:206 | `radiosDiv.before(x)` puts `x` immediately before the radios div and shifts the rest by one |
| Presentation.HiddenList | pcf/HSL.GovUkDesignSytem/TextInput/TextInput/index.ts:239-245 | the token list HideError writes back is one shorter exactly when it held `errorMessage` (an absent attribute has no tokens) |
| Presentation.ShownList | pcf/HSL.GovUkDesignSytem/TextInput/TextInput/index.ts:210-216 | the token list ShowError writes back holds `errorMessage` and starts with every token read, adding at most one |
| Presentation.Hide | pcf/HSL.GovUkDesignSytem/TextInput/TextInput/index.ts:227-248 | HideError leaves no error styling, always sets the attribute, and keeps the remembered message |
| Presentation.Show | pcf/HSL.GovUkDesignSytem/TextInput/TextInput/index.ts:191-222 | ShowError leaves the error styling on, sets the attribute and remembers the text |
| Presentation.HiddenListSpec | pcf/HSL.GovUkDesignSytem/TextInput/TextInput/index.ts:239-247 | HideError removes one `errorMessage` token and keeps the others in order; without the token the attribute is written back unchanged; an absent one becomes "" |
| Presentation.HiddenTokensGone | pcf/HSL.GovUkDesignSytem/TextInput/TextInput/index.ts:239-247 | from at most one token, no `errorMessage` token is left after HideError |
| Presentation.HideSpec | pcf/HSL.GovUkDesignSytem/TextInput/TextInput/index.ts:227-248 | HideError clears the styling, removes one error span and one token, keeps all else in order, and keeps the message |
| Presentation.HideNoOp | pcf/HSL.GovUkDesignSytem/TextInput/TextInput/index.ts:227-248 | with no error shown and the attribute set without the token, HideError changes nothing |
| Presentation.HideIdempotent | pcf/HSL.GovUkDesignSytem/TextInput/TextInput/index.ts:227-248 | from at most one error span and token, hiding twice is hiding once |
| Presentation.HideConsistent | pcf/HSL.GovUkDesignSytem/TextInput/TextInput/index.ts:227-248 | HideError preserves the invariant and leaves no error span |
| Presentation.ShownListAppends | pcf/HSL.GovUkDesignSytem/TextInput/TextInput/index.ts:210-218 | on a hidden attribute, ShowError's list is the old tokens plus `errorMessage`, and that list survives join and split |
| Presentation.InsertSpanSpec | pcf/HSL.GovUkDesignSytem/TextInput/TextInput/index.ts:201-206 | the inserted span is the only one, the other children are untouched, and removing the first span takes it away again |
| Presentation.SpanBetweenCount | pcf/HSL.GovUkDesignSytem/TextInput/TextInput/index.ts:206 | a span placed between runs without one is the only error span |
| Presentation.SpanBetweenNonErrors | pcf/HSL.GovUkDesignSytem/TextInput/TextInput/index.ts:206 | placing a span leaves the other children as they were |
| Presentation.RemoveFirstErrorSkip | pcf/HSL.GovUkDesignSytem/TextInput/TextInput/index.ts:235-236 | `getElementById` passes over children that are not error spans and removes the first one |
| Presentation.RemoveFirstErrorAfter | pcf/HSL.GovUkDesignSytem/TextInput/TextInput/index.ts:235-236 | with no span before it, the span `getElementById` finds is the inserted one |
| Presentation.ShownTokensSpec | pcf/HSL.GovUkDesignSytem/TextInput/TextInput/index.ts:210-218 | after ShowError the attribute holds exactly one `errorMessage`, the other tokens are kept (with one blank token when there were none), and a later hide restores the hidden attribute |
| Presentation.ShownStringSpec | pcf/HSL.GovUkDesignSytem/TextInput/TextInput/index.ts:210-218 | on a token-free attribute, ShowError adds exactly one token and HideError removes exactly it |
| Presentation.ReplaceSpanSpec | pcf/HSL.GovUkDesignSytem/TextInput/TextInput/index.ts:193-206 | after hide-then-insert there is exactly one error span, right before the radios div, and the other children are kept |
| Presentation.ShowSpec | pcf/HSL.GovUkDesignSytem/TextInput/TextInput/index.ts:191-222 | ShowError turns the styling on, leaves exactly one error span (hidden lead-in plus text) just before the radios div, keeps the other children, and remembers the text |
| Presentation.ShowTokensSpec | pcf/HSL.GovUkDesignSytem/TextInput/TextInput/index.ts:210-218 | ShowError sets the attribute with exactly one `errorMessage` and keeps the other tokens in order (with one blank token when there were none) |
| Presentation.ShowConsistent | pcf/HSL.GovUkDesignSytem/TextInput/TextInput/index.ts:191-222 | ShowError preserves the invariant and leaves the error shown |
| Presentation.HideAfterShow | pcf/HSL.GovUkDesignSytem/TextInput/TextInput/index.ts:191-248 | HideError after ShowError gives what HideError alone gives, except that the message is remembered |
| Presentation.ShowIdempotent | pcf/HSL.GovUkDesignSytem/TextInput/TextInput/index.ts:191-222 | showing the same text twice is showing it once |
| Presentation.ShowAfterHide | pcf/HSL.GovUkDesignSytem/TextInput/TextInput/index.ts:193-194 | since ShowError hides first, hiding before it changes nothing |
| Presentation.ShownEmptyAttribute | pcf/HSL.GovUkDesignSytem/TextInput/TextInput/index.ts:210-218 | on the empty attribute text, ShowError reads one empty token and writes " errorMessage" |
| Presentation.ShowOnAbsentAttribute | pcf/HSL.GovUkDesignSytem/TextInput/TextInput/index.ts:210-218 | on an absent attribute HideError writes "", so ShowError writes " errorMessage" with a leading empty token |
| RadioListControl.RadioList.Init | pcf/HSL.GovUkDesignSytem/TextInput/TextInput/index.ts:74-166 | stores the context, takes `itemValue` or [] as the selection, derives the container label, turns validation off, registers the control and appends a fresh validator with id `<id>Validator` that validates `<id>`, with `isvalid` and `errormessage` unset |
| RadioListControl.RadioList.EnableValidation | pcf/HSL.GovUkDesignSytem/TextInput/TextInput/index.ts:177-185 | validation is on; with nothing selected the error "Select …" is shown, otherwise nothing else changes |
| RadioListControl.RadioList.ShowError | pcf/HSL.GovUkDesignSytem/TextInput/TextInput/index.ts:191-222 | the presentation becomes `Show(old, text)`, the error is shown, and the invariant is kept |
| RadioListControl.RadioList.HideError | pcf/HSL.GovUkDesignSytem/TextInput/TextInput/index.ts:227-248 | the presentation becomes `Hide(old)`, no error is shown, and the invariant is kept |
| RadioListControl.RadioList.RefreshData | pcf/HSL.GovUkDesignSytem/TextInput/TextInput/index.ts:264-271 | appends exactly the value to the selection, turns validation off (so it would pass) and hides the error |
| RadioListControl.RadioList.PerformInputValidation | pcf/HSL.GovUkDesignSytem/TextInput/TextInput/index.ts:278-291 | stores the field identifier, hides first, and returns true when validation is off or something is selected; the error is shown exactly when it returns false, with the "Select …" message |
| RadioListControl.RadioList.HandleIfNothingIsSelected | pcf/HSL.GovUkDesignSytem/TextInput/TextInput/index.ts:325-335 | returns true exactly when something is selected; otherwise turns validation on and shows "Select …"; with a selection nothing changes |
| RadioListControl.RadioList.UpdateView | pcf/HSL.GovUkDesignSytem/TextInput/TextInput/index.ts:341-349 | stores the new context and turns validation on exactly when nothing is selected, otherwise keeps it |
| RadioListControl.RadioList.GetOutputs | pcf/HSL.GovUkDesignSytem/TextInput/TextInput/index.ts:355-359 | the output is the current selection |
| RadioListControl.RadioList.RegisterPCFComponent | pcf/HSL.GovUkDesignSytem/TextInput/TextInput/index.ts:370-383 | the registrar exists afterwards and maps the unique identifier to this control; every other entry is kept |
| RadioListControl.RadioList.PageValidation | pcf/HSL.GovUkDesignSytem/TextInput/TextInput/index.ts:293-318 | without page validators nothing changes; otherwise one fresh validator for this control is appended and the existing ones are kept |
| RadioListControl.Validator.constructor | pcf/HSL.GovUkDesignSytem/TextInput/TextInput/index.ts:300-303 | the validator's id is the unique identifier + "Validator" and it validates that identifier |
| RadioListControl.Validator.EvaluationFunction | pcf/HSL.GovUkDesignSytem/TextInput/TextInput/index.ts:304-315 | fails (throws) exactly when the registry has no such control; otherwise `isvalid` is the validation result, `errormessage` is null when valid and otherwise the summary link to the control's container label (which the invariant ties to `<id>_Container`) wrapping "Select …"; the control has run `performInputValidation`: its view is `Hide(old)` when valid and `Show(old, "Select …")` otherwise, its selection, validation flag and context are unchanged, and its field identifier is stored |

## Left out

- Rendering the Nunjucks template and assembling `innerHTML` (index.ts:98-147) are not modelled. `Init` takes the rendered markup as parameters instead: the classes, the fieldset children and the attribute, which show no error.
- `registerNunjucks` (index.ts:385-395) is not modelled: it only configures the template engine.
- DOM queries and the wiring of change listeners are not modelled. `removeHintDiv` is not modelled either; it removes a node that plays no part in the error presentation. `destroy` is a no-op.
- The `heading`, `hint` and `hintId` fields are not modelled; only rendering reads them.
- `notifyOutputChanged` is not modelled: it is a host callback with no effect on the control's state.
- RadioListControl.RadioList.RefreshData: the value is a parameter. `Number(...)` parsing of the radio's `value` attribute is not modelled.
- RadioListControl.RadioList.RefreshData: the `_selectedOptions` array may be the host's `itemValue.raw` array itself. The model does not capture that aliasing, nor the aliasing of the array `getOutputs` returns.
- Text.LowerChar: lower-cases only the ASCII capitals A-Z. JavaScript's `toLowerCase` also maps other scripts and works on UTF-16 code units. The model's strings are sequences of Dafny characters.
- Text.FirstCharLowerCase: keeps the length only in the model. In JavaScript, lower-casing can change the length: `"İ".toLowerCase()` has two code units.
- The DOM is modelled as holding a single control. With several controls on a page, `getElementById("errorMessage")` and `getElementsByClassName(...)[0]` find the first match in the whole document, which may belong to another control.
- The model merges JavaScript's `undefined` and `null` into `None`. In particular, a `Page_Validators` that is `null` rather than undefined would make the push throw; the model treats it as absent.
- The context's string properties are taken as strings. A raw `null` identifier is not modelled.
- The page's validation-summary script that calls the validators is not part of this model. `generated/ManifestTypes.d.ts` is not part of this model; it only declares the input and output types.

## Notes on the source

- `handleIfNothingIsSelected`'s doc comment says it returns true when nothing is selected. The code returns true when something is selected; the model follows the code.
- When `aria-describedby` is absent, `HideError` writes `""`. `ShowError` then splits that into one empty token and writes `" errorMessage"`, with a leading space (`Presentation.ShowOnAbsentAttribute`).
- The `evaluationfunction` returns no value. It throws a TypeError when the registry or the entry is missing; `EvaluationFunction` reports that as `failed` and changes nothing.
