/**
 * The radio-list control (`RadioList` in index.ts): its selection, its
 * validation switch and error presentation, the page-wide registry it
 * registers itself in, and the page validator it adds for the page's
 * validation summary.
 */
module RadioListControl {
  import opened Wrappers
  import opened Tokens
  import opened Presentation
  import opened Messages

  /** The host's context properties the control reads. */
  datatype Context = Context(
    uniqueIdentifier: string,             // parameters.uniqueIdentifier.raw
    fieldIdentifierErrorMessage: string,  // parameters.fieldIdentifierErrorMessage.raw
    itemValue: Option<seq<int>>           // parameters.itemValue.raw, None for null
  )

  /**
   * The page globals the control uses: `window.HSL.PCFRegistrar` (None
   * while `HSL` or its registrar is missing) and `window.Page_Validators`
   * (None when the page has no validation framework).
   */
  class Window {
    var registrar: Option<map<string, RadioList>>
    var pageValidators: Option<seq<Validator>>
  }

  /** The validator span `pageValidation` pushes onto `Page_Validators`. */
  class Validator {
    const id: string
    const controlToValidate: string
    var isValid: Option<bool>          // None until first evaluated
    var errorMessage: Option<string>   // None for unset or null

    constructor (uniqueIdentifier: string)
      ensures id == uniqueIdentifier + "Validator"
      ensures controlToValidate == uniqueIdentifier
      ensures isValid == None && errorMessage == None
    {
      id := uniqueIdentifier + "Validator";
      controlToValidate := uniqueIdentifier;
      isValid := None;
      errorMessage := None;
    }

    /**
     * The control `HSL.PCFRegistrar[controltovalidate]` finds, as a set:
     * empty when the lookup throws (no registrar, or no entry).
     */
    function Target(win: Window): set<RadioList>
      reads win
    {
      if win.registrar.Some? && controlToValidate in win.registrar.value
      then {win.registrar.value[controlToValidate]} else {}
    }

    /**
     * `evaluationfunction`: validates the registered control, stores the
     * result in `isvalid` and, when invalid, a link to the control's
     * container wrapping its error message (null when valid). `failed`
     * stands for the TypeError thrown when the lookup finds nothing; then
     * nothing changes. The source function returns no value.
     */
    method EvaluationFunction(win: Window) returns (failed: bool)
      requires forall c :: c in Target(win) ==> c.Valid()
      modifies this, Target(win)
      ensures failed <==> Target(win) == {}
      ensures failed ==> isValid == old(isValid) && errorMessage == old(errorMessage)
      ensures !failed ==>
        var c := win.registrar.value[controlToValidate];
        && c.Valid()
        && isValid == Some(old(c.WouldPass()))
        && (old(c.WouldPass()) ==> errorMessage == None)
        && (!old(c.WouldPass()) ==>
              errorMessage == Some(SummaryLink(c.containerLabel,
                NothingSelectedMessage(c.context.fieldIdentifierErrorMessage))))
    ensures !failed ==>
        var c := win.registrar.value[controlToValidate];
        && old(c.Valid())
        && (old(c.WouldPass()) ==> c.View() == Hide(old(c.View())))
        && (!old(c.WouldPass()) ==>
              c.View() == Show(old(c.View()), NothingSelectedMessage(c.context.fieldIdentifierErrorMessage)))
        && c.selectedOptions == old(c.selectedOptions)
        && c.enableValidation == old(c.enableValidation)
        && c.fieldIdentifier == Some(c.context.fieldIdentifierErrorMessage)
        && c.context == old(c.context)
    {
      if Target(win) == {} {
        return true;
      }
      failed := false;
      var c := win.registrar.value[controlToValidate];
      var result := c.PerformInputValidation();
      isValid := Some(result);
      if !result {
        errorMessage := Some(SummaryLink(c.containerLabel, c.errorMessage.value));
      } else {
        errorMessage := None;
      }
    }
  }

  class RadioList {
    var context: Context
    const uniqueIdentifier: string
    /** Id of the container the portal wraps the control in. */
    const containerLabel: string
    var selectedOptions: seq<int>
    var enableValidation: bool
    var fieldIdentifier: Option<string>
    // The error presentation (see module Presentation).
    var formGroupClasses: set<string>
    var fieldSetChildren: seq<Node>
    var describedBy: Option<string>
    var errorMessage: Option<string>

    function View(): ErrorView
      reads this`formGroupClasses, this`fieldSetChildren, this`describedBy, this`errorMessage
    {
      ErrorView(formGroupClasses, fieldSetChildren, describedBy, errorMessage)
    }

    /** The presentation is consistent, and the container is named after the unique identifier. */
    ghost predicate Valid()
      reads this`formGroupClasses, this`fieldSetChildren, this`describedBy, this`errorMessage
    {
      && containerLabel == uniqueIdentifier + "_Container"
      && Consistent(View())
    }

    /** What `performInputValidation` returns in this state. */
    predicate WouldPass()
      reads this`enableValidation, this`selectedOptions
    {
      !enableValidation || |selectedOptions| != 0
    }

    /**
     * `init`, given the markup the template rendered (the form group's
     * classes, the fieldset's children and its `aria-describedby`), which
     * shows no error: store the context, take the current selection, keep
     * validation off, register in the page registry and add the page
     * validator.
     */
    constructor Init(ctx: Context, classes: set<string>, children: seq<Node>,
                     attr: Option<string>, win: Window)
      requires Consistent(ErrorView(classes, children, attr, None)) && ErrorClass !in classes
      modifies win
      ensures Valid()
      ensures context == ctx && uniqueIdentifier == ctx.uniqueIdentifier
      ensures containerLabel == ctx.uniqueIdentifier + "_Container"
      ensures selectedOptions == ctx.itemValue.GetOr([])
      ensures !enableValidation && fieldIdentifier == None
      ensures View() == ErrorView(classes, children, attr, None)
      ensures win.registrar == Some(old(win.registrar).GetOr(map[])[ctx.uniqueIdentifier := this])
      ensures old(win.pageValidators).None? ==> win.pageValidators.None?
      ensures old(win.pageValidators).Some? ==>
        && win.pageValidators.Some?
        && |win.pageValidators.value| == |old(win.pageValidators).value| + 1
        && win.pageValidators.value[..|old(win.pageValidators).value|] == old(win.pageValidators).value
        && var v := win.pageValidators.value[|old(win.pageValidators).value|];
           && fresh(v)
           && v.id == ctx.uniqueIdentifier + "Validator" && v.controlToValidate == ctx.uniqueIdentifier
           && v.isValid == None && v.errorMessage == None
    {
      context := ctx;
      selectedOptions := ctx.itemValue.GetOr([]);
      uniqueIdentifier := ctx.uniqueIdentifier;
      containerLabel := ctx.uniqueIdentifier + "_Container";
      formGroupClasses := classes;
      fieldSetChildren := children;
      describedBy := attr;
      errorMessage := None;
      fieldIdentifier := None;
      enableValidation := false;
      new;
      RegisterPCFComponent(win);
      PageValidation(win);
    }

    /**
     * `enableValidation`: switch validation on and, when nothing is
     * selected, validate at once (which shows the error).
     */
    method EnableValidation()
      requires Valid()
      modifies this`enableValidation, this`fieldIdentifier,
        this`formGroupClasses, this`fieldSetChildren, this`describedBy, this`errorMessage
      ensures Valid()
      ensures enableValidation
      ensures |selectedOptions| == 0 ==>
        && View() == Show(old(View()), NothingSelectedMessage(context.fieldIdentifierErrorMessage))
        && fieldIdentifier == Some(context.fieldIdentifierErrorMessage)
      ensures |selectedOptions| != 0 ==> View() == old(View()) && fieldIdentifier == old(fieldIdentifier)
    {
      enableValidation := true;
      if |selectedOptions| == 0 {
        var _ := PerformInputValidation();
      }
    }

    /**
     * `ShowError`: hide any error, style the form group, put the error span
     * just before the radios div, list its id in `aria-describedby` unless
     * it is there, and remember the message.
     */
    method ShowError(errorMessageText: string)
      requires RadiosDiv in fieldSetChildren
      modifies this`formGroupClasses, this`fieldSetChildren, this`describedBy, this`errorMessage
      ensures View() == Show(old(View()), errorMessageText)
      ensures Shown(View())
      ensures old(Valid()) ==> Valid()
    {
      ghost var before := View();
      HideError();
      ghost var hidden := View();
      formGroupClasses := formGroupClasses + {ErrorClass};
      var span := ErrorSpan(HiddenPrefix + errorMessageText);
      fieldSetChildren := InsertBeforeRadios(fieldSetChildren, span);
      var list := TokensOf(describedBy);
      if ErrorId !in list {
        list := list + [ErrorId];
      }
      describedBy := Some(Join(list));
      errorMessage := Some(errorMessageText);
      assert View() == Show(before, errorMessageText) by {
        assert hidden == Hide(before);
        assert list == ShownList(hidden.describedBy.value);
      }
      if Consistent(before) {
        ShowConsistent(before, errorMessageText);
      }
    }

    /**
     * `HideError`: drop the error styling, remove the error span if there
     * is one, and splice the first `errorMessage` out of `aria-describedby`.
     */
    method HideError()
      modifies this`formGroupClasses, this`fieldSetChildren, this`describedBy, this`errorMessage
      ensures View() == Hide(old(View()))
      ensures !Shown(View())
      ensures old(Valid()) ==> Valid()
    {
      ghost var before := View();
      formGroupClasses := formGroupClasses - {ErrorClass};
      fieldSetChildren := RemoveFirstError(fieldSetChildren);
      var list := TokensOf(describedBy);
      var index := IndexOf(list, ErrorId);
      if index != -1 {
        list := RemoveAt(list, index);
      }
      describedBy := Some(Join(list));
      if Consistent(before) {
        HideConsistent(before);
      }
    }

    /**
     * `refreshData`, on a change of radio: append the radio's value to the
     * selection, switch validation off and hide the error. `value` is the
     * value of the last radio wired in `init`, as the source reads it.
     */
    method RefreshData(value: int)
      modifies this`selectedOptions, this`enableValidation,
        this`formGroupClasses, this`fieldSetChildren, this`describedBy, this`errorMessage
      ensures selectedOptions == old(selectedOptions) + [value]
      ensures !enableValidation && WouldPass()
      ensures View() == Hide(old(View())) && !Shown(View())
      ensures old(Valid()) ==> Valid()
    {
      selectedOptions := selectedOptions + [value];
      enableValidation := false;
      HideError();
    }

    /**
     * `performInputValidation`: read the field identifier from the context,
     * hide any error, and when validation is on apply the nothing-selected
     * rule. Valid exactly when no error is left shown.
     */
    method PerformInputValidation() returns (isInputValid: bool)
      requires Valid()
      modifies this`fieldIdentifier, this`enableValidation,
        this`formGroupClasses, this`fieldSetChildren, this`describedBy, this`errorMessage
      ensures Valid()
      ensures isInputValid == old(WouldPass())
      ensures Shown(View()) <==> !isInputValid
      ensures isInputValid ==> View() == Hide(old(View()))
      ensures !isInputValid ==>
        View() == Show(old(View()), NothingSelectedMessage(context.fieldIdentifierErrorMessage))
      ensures fieldIdentifier == Some(context.fieldIdentifierErrorMessage)
      ensures enableValidation == old(enableValidation)
    {
      ghost var before := View();
      var identifier := context.fieldIdentifierErrorMessage;
      fieldIdentifier := Some(identifier);
      isInputValid := true;
      HideError();
      assert unchanged(this`selectedOptions, this`enableValidation, this`context);
      if enableValidation {
        var selected := HandleIfNothingIsSelected(identifier);
        assert unchanged(this`selectedOptions, this`context);
        isInputValid := isInputValid && selected;
      }
      if !isInputValid {
        ShowAfterHide(before, NothingSelectedMessage(identifier));
      }
    }

    /**
     * `handleIfNothingIsSelected`: true when some option is selected;
     * otherwise switch validation on and show "Select <identifier>".
     */
    method HandleIfNothingIsSelected(identifier: string) returns (selected: bool)
      requires Valid()
      modifies this`enableValidation, this`formGroupClasses, this`fieldSetChildren, this`describedBy, this`errorMessage
      ensures Valid()
      ensures selected <==> |selectedOptions| != 0
      ensures enableValidation == (old(enableValidation) || !selected)
      ensures selected ==> View() == old(View())
      ensures !selected ==> View() == Show(old(View()), NothingSelectedMessage(identifier)) && Shown(View())
    {
      var nothingSelected := |selectedOptions| == 0;
      selected := !nothingSelected;
      if nothingSelected {
        enableValidation := true;
        ShowError(NothingSelectedMessage(identifier));
        assert unchanged(this`selectedOptions);
      }
    }

    /**
     * `updateView`: keep the new context and, when nothing is selected,
     * switch validation on (without validating).
     */
    method UpdateView(ctx: Context)
      modifies this`context, this`enableValidation
      ensures context == ctx
      ensures enableValidation == (old(enableValidation) || |selectedOptions| == 0)
    {
      context := ctx;
      if |selectedOptions| == 0 {
        enableValidation := true;
      }
    }

    /** `getOutputs`: the selection, as the bound `itemValue` output. */
    method GetOutputs() returns (itemValue: seq<int>)
      ensures itemValue == selectedOptions
    {
      itemValue := selectedOptions;
    }

    /**
     * `registerPCFComponent`: create the registrar if missing and store this
     * control under its unique identifier; other entries are untouched.
     */
    method RegisterPCFComponent(win: Window)
      modifies win
      ensures win.pageValidators == old(win.pageValidators)
      ensures win.registrar == Some(old(win.registrar).GetOr(map[])[uniqueIdentifier := this])
      ensures win.registrar.Some?
      ensures uniqueIdentifier in win.registrar.value && win.registrar.value[uniqueIdentifier] == this
      ensures win.registrar.value.Keys == old(win.registrar).GetOr(map[]).Keys + {uniqueIdentifier}
      ensures forall k :: k in old(win.registrar).GetOr(map[]) && k != uniqueIdentifier ==>
        win.registrar.value[k] == old(win.registrar).GetOr(map[])[k]
    {
      var registrar := win.registrar.GetOr(map[]);
      win.registrar := Some(registrar[uniqueIdentifier := this]);
    }

    /**
     * `pageValidation`: when the page has validators, push a new validator
     * for this control's unique identifier; otherwise do nothing.
     */
    method PageValidation(win: Window)
      modifies win
      ensures win.registrar == old(win.registrar)
      ensures old(win.pageValidators).None? ==> win.pageValidators.None?
      ensures old(win.pageValidators).Some? ==>
        && win.pageValidators.Some?
        && |win.pageValidators.value| == |old(win.pageValidators).value| + 1
        && win.pageValidators.value[..|old(win.pageValidators).value|] == old(win.pageValidators).value
        && var v := win.pageValidators.value[|old(win.pageValidators).value|];
           && fresh(v)
           && v.id == uniqueIdentifier + "Validator" && v.controlToValidate == uniqueIdentifier
           && v.isValid == None && v.errorMessage == None
    {
      if win.pageValidators.None? {
        return;
      }
      var validator := new Validator(uniqueIdentifier);
      win.pageValidators := Some(win.pageValidators.value + [validator]);
    }
  }
}
