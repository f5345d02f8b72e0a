/**
 * The `HotkeyDialog` service: a builder for a dialog whose buttons are chosen with the left
 * and right keys and taken with enter, and the controller of the dialog it shows.
 */
module HotkeyDialogs {
  import opened Wrappers
  import opened JsValues

  /** A button: a caption and a material icon name, either of which may be `null`. */
  datatype Action = Action(caption: Option<string>, icon: Option<string>)

  /** The buttons of a dialog that is not given any: No, then Yes, without icons. */
  const DefaultActions := [Action(Some("No"), None), Action(Some("Yes"), None)]

  /** The template a dialog uses unless given another. */
  const DefaultTemplate := "views/dialogs/hotkey-dialog.html"

  /**
   * What the dialog waits on before it accepts enter: a promise of its own that is already
   * resolved, or the object the caller passed (settling when the caller's promise does).
   */
  datatype Wait = Settled | Given(promise: JsValue)

  /** The promise `wait(arg)` stores: an object-like argument itself, otherwise a resolved one. */
  function WaitFor(arg: JsValue): (r: Wait)
    ensures r.Given? <==> IsObjectLike(arg)
    ensures r.Given? ==> r.promise == arg
  {
    if IsObjectLike(arg) then Given(arg) else Settled
  }

  /** `undefined`, `null`, a number or a function is not object-like; a property map is. */
  lemma WaitForCases(props: map<string, JsValue>, n: int)
    ensures WaitFor(Undefined) == Settled && WaitFor(Null) == Settled && WaitFor(Num(n)) == Settled
    ensures WaitFor(Fun) == Settled && WaitFor(Obj(props)) == Given(Obj(props))
  {
  }

  /** The dialog being built: the fields of `dialog` and `dialog.locals` that its builders set. */
  class HotkeyDialog {
    /** `locals.text`, the prompt; `undefined` until `prompt` is called. */
    var text: Option<string>
    /** `templateUrl`. */
    var templateUrl: string
    /** `locals.dialogActions`. */
    var actions: seq<Action>
    /** `locals.ariaLabel`. */
    var ariaLabel: string
    /** `waitPromise`, which `locals.waitForReady` returns. */
    var waitPromise: Wait

    /** `new HotkeyDialog()`: calls `wait()` with no argument, then sets the defaults. */
    constructor ()
      ensures text == None && templateUrl == DefaultTemplate && actions == DefaultActions
      ensures ariaLabel == "Dialog" && waitPromise == Settled
    {
      waitPromise := WaitFor(Undefined);
      text := None;
      templateUrl := DefaultTemplate;
      actions := DefaultActions;
      ariaLabel := "Dialog";
    }

    /** `prompt(p)`: sets the prompt text and returns the same dialog. */
    method Prompt(p: string) returns (r: HotkeyDialog)
      modifies this
      ensures r == this && text == Some(p)
      ensures templateUrl == old(templateUrl) && actions == old(actions)
      ensures ariaLabel == old(ariaLabel) && waitPromise == old(waitPromise)
    {
      text := Some(p);
      r := this;
    }

    /** `template(url)`: sets the template and returns the same dialog. */
    method Template(url: string) returns (r: HotkeyDialog)
      modifies this
      ensures r == this && templateUrl == url
      ensures text == old(text) && actions == old(actions)
      ensures ariaLabel == old(ariaLabel) && waitPromise == old(waitPromise)
    {
      templateUrl := url;
      r := this;
    }

    /** `actions(list)`: sets the buttons (an empty list shows none) and returns the same dialog. */
    method Actions(list: seq<Action>) returns (r: HotkeyDialog)
      modifies this
      ensures r == this && actions == list
      ensures text == old(text) && templateUrl == old(templateUrl)
      ensures ariaLabel == old(ariaLabel) && waitPromise == old(waitPromise)
    {
      actions := list;
      r := this;
    }

    /** `wait(arg)`: sets what enter waits for and returns the same dialog. */
    method WaitOn(arg: JsValue) returns (r: HotkeyDialog)
      modifies this
      ensures r == this && waitPromise == WaitFor(arg)
      ensures text == old(text) && templateUrl == old(templateUrl)
      ensures actions == old(actions) && ariaLabel == old(ariaLabel)
    {
      waitPromise := WaitFor(arg);
      r := this;
    }

    /** `aria(name)`: sets the ARIA label and returns the same dialog. */
    method Aria(name: string) returns (r: HotkeyDialog)
      modifies this
      ensures r == this && ariaLabel == name
      ensures text == old(text) && templateUrl == old(templateUrl)
      ensures actions == old(actions) && waitPromise == old(waitPromise)
    {
      ariaLabel := name;
      r := this;
    }
  }

  /** What an enter press does: nothing before the wait promise settles, then close with a button. */
  datatype EnterResult = NotBound | Hide(chosen: Option<Action>)

  /** The controller of a shown dialog: the cursor `action` over the buttons. */
  class DialogController {
    /** `dialogActions`, bound from the dialog's locals. */
    const dialogActions: seq<Action>
    /** The button under the cursor. */
    var action: int
    /** Whether `waitForReady()` has settled, so that enter is bound. */
    var ready: bool

    /** The cursor is on a button, or at 0 when there are none. */
    ghost predicate Valid()
      reads this
    {
      0 <= action && (action < |dialogActions| || action == 0)
    }

    /** The controller starts on the first button, with enter not yet bound. */
    constructor (dialogActions: seq<Action>)
      ensures this.dialogActions == dialogActions && action == 0 && !ready
      ensures Valid()
    {
      this.dialogActions := dialogActions;
      action := 0;
      ready := false;
    }

    /** The wait promise settles (resolved or rejected): enter gets bound. */
    method Settle()
      modifies this
      ensures ready && action == old(action)
    {
      ready := true;
    }

    /** 'right': the next button, unless on the last one. */
    method Right()
      requires Valid()
      modifies this
      ensures action == if old(action) < |dialogActions| - 1 then old(action) + 1 else old(action)
      ensures ready == old(ready)
      ensures Valid()
    {
      if action < |dialogActions| - 1 {
        action := action + 1;
      }
    }

    /** 'left': the previous button, unless on the first one. */
    method Left()
      requires Valid()
      modifies this
      ensures action == if old(action) > 0 then old(action) - 1 else old(action)
      ensures ready == old(ready)
      ensures Valid()
    {
      if action > 0 {
        action := action - 1;
      }
    }

    /**
     * 'enter': once bound, closes the dialog with the button under the cursor (`undefined`
     * when there are no buttons).
     */
    method Enter() returns (r: EnterResult)
      requires Valid()
      ensures !ready ==> r == NotBound
      ensures ready && dialogActions != [] ==> r == Hide(Some(dialogActions[action]))
      ensures ready && dialogActions == [] ==> r == Hide(None)
    {
      if !ready {
        r := NotBound;
      } else if action < |dialogActions| {
        r := Hide(Some(dialogActions[action]));
      } else {
        r := Hide(None);
      }
    }
  }
}
