/**
 * The `$error` service: the text of the error dialog chosen from a rejection.
 */
module ErrorMessage {
  import opened JsValues

  /** The text used when the rejection says nothing usable. */
  const DefaultMessage := Str("An unhandled error has occurred.")

  /**
   * How the choice ends: the dialog shows `text`, or reading a property of `null` throws a
   * `TypeError` before any dialog is built.
   */
  datatype Outcome = Shows(text: JsValue) | Throws

  /**
   * The choice as written: a string is its own message; for anything whose `typeof` is
   * "object" a string `error` property comes first, then an object `error` with a truthy
   * `message`, then a truthy `message`; anything else gets the default.
   */
  function MessageAsWritten(rejection: JsValue): (r: Outcome)
    ensures rejection.Str? ==> r == Shows(rejection)
    ensures !rejection.Str? && TypeOf(rejection) != "object" ==> r == Shows(DefaultMessage)
    ensures r.Throws? <==> rejection == Null || (rejection.Obj? && Get(rejection, "error") == Null)
  {
    if TypeOf(rejection) == "string" then Shows(rejection)
    else if TypeOf(rejection) == "object" then
      if rejection == Null then Throws
      else
        var e := Get(rejection, "error");
        if TypeOf(e) == "string" then Shows(e)
        else if TypeOf(e) == "object" then
          if e == Null then Throws
          else if Truthy(Get(e, "message")) then Shows(Get(e, "message"))
          else if Truthy(Get(rejection, "message")) then Shows(Get(rejection, "message"))
          else Shows(DefaultMessage)
        else if Truthy(Get(rejection, "message")) then Shows(Get(rejection, "message"))
        else Shows(DefaultMessage)
    else Shows(DefaultMessage)
  }

  /** A `null` rejection, and a rejection whose `error` is `null`, throw instead of showing a dialog. */
  lemma NullRejectionThrows()
    ensures MessageAsWritten(Null) == Throws
    ensures MessageAsWritten(Obj(map["error" := Null, "message" := Str("lost")])) == Throws
  {
    var v := Obj(map["error" := Null, "message" := Str("lost")]);
    assert Get(v, "error") == Null;
  }

  /**
   * The choice as evidently intended: `null` is not a rejection object, nor an `error`
   * property to look into, so those cases fall through to the later checks.
   */
  function Message(rejection: JsValue): (r: JsValue)
    ensures rejection.Str? ==> r == rejection
    ensures r == DefaultMessage || r == rejection || (rejection.Obj? && (r == Get(rejection, "error") || r == Get(rejection, "message")
              || (Get(rejection, "error").Obj? && r == Get(Get(rejection, "error"), "message"))))
  {
    if rejection.Str? then rejection
    else if rejection.Obj? then
      var e := Get(rejection, "error");
      if e.Str? then e
      else if e.Obj? && Truthy(Get(e, "message")) then Get(e, "message")
      else if Truthy(Get(rejection, "message")) then Get(rejection, "message")
      else DefaultMessage
    else DefaultMessage
  }

  /** Where the code as written shows a dialog, the corrected choice shows the same text. */
  lemma MessageAgrees(rejection: JsValue)
    ensures MessageAsWritten(rejection).Shows? ==> Message(rejection) == MessageAsWritten(rejection).text
    ensures MessageAsWritten(rejection).Throws? ==>
              Message(rejection) == (if rejection.Obj? && Truthy(Get(rejection, "message"))
                                     then Get(rejection, "message") else DefaultMessage)
  {
  }

  /** A string `error` is the message, whatever `message` says: `error` takes precedence. */
  lemma ErrorBeforeMessage(props: map<string, JsValue>, e: string)
    requires "error" in props && props["error"] == Str(e)
    ensures Message(Obj(props)) == Str(e)
    ensures MessageAsWritten(Obj(props)) == Shows(Str(e))
  {
  }

  /** Next comes a truthy `message` of an object `error`, again before the top-level `message`. */
  lemma NestedMessageBeforeMessage(props: map<string, JsValue>, inner: map<string, JsValue>)
    requires "error" in props && props["error"] == Obj(inner)
    requires "message" in inner && Truthy(inner["message"])
    ensures Message(Obj(props)) == inner["message"]
    ensures MessageAsWritten(Obj(props)) == Shows(inner["message"])
  {
  }

  /** Without a usable `error`, a truthy `message` is used. */
  lemma TopLevelMessage(props: map<string, JsValue>)
    requires "error" !in props || !(props["error"].Str? || (props["error"].Obj? && Truthy(Get(props["error"], "message"))))
    requires "message" in props && Truthy(props["message"])
    ensures Message(Obj(props)) == props["message"]
  {
  }

  /** Anything else gets the default text. */
  lemma DefaultOtherwise(rejection: JsValue)
    requires !rejection.Str?
    requires rejection.Obj? ==>
             var e := Get(rejection, "error");
             !e.Str? && !(e.Obj? && Truthy(Get(e, "message"))) && !Truthy(Get(rejection, "message"))
    ensures Message(rejection) == DefaultMessage
  {
  }
}
