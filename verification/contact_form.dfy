/**
 * The contact form's submit handler: both fields are trimmed; a blank field
 * is refused with an error notice; otherwise the fields fill a fixed Spanish
 * message template and a WhatsApp link carrying that message, percent-encoded
 * by encodeURIComponent, is opened, a success notice is shown and the form is
 * reset.
 */
module ContactForm {
  import opened Wrappers
  import opened JsStrings
  import opened Uri

  /** The business's WhatsApp number, without "+", spaces or dashes. */
  const WaNumber: JsString := Lit("5492392488913")

  const UrlPrefix: JsString := Lit("https://wa.me/") + WaNumber + Lit("?text=")

  /** The fixed parts of the message template, around the name. */
  const Greeting: JsString := Lit("Hola Viral Inform\U{E1}tica! \n\nMi nombre es *")
  const AfterName: JsString := Lit("*.\n\n")

  /** The prefilled WhatsApp message for a (trimmed) name and message. */
  function Template(name: JsString, message: JsString): (text: JsString)
    ensures |text| == |Greeting| + |name| + |AfterName| + |message|
    ensures text[..|Greeting|] == Greeting
    ensures text[|Greeting|..|Greeting| + |name|] == name
    ensures text[|Greeting| + |name|..|text| - |message|] == AfterName
    ensures text[|text| - |message|..] == message
  {
    Greeting + name + AfterName + message
  }

  /** The kind of notice shown under the form. */
  datatype Notice = ErrorNotice | SuccessNotice

  /** What one submission does: the notice it shows, the URL it opens in a
      new tab, and whether it resets the form. */
  datatype Effect = Effect(notice: Option<Notice>, url: Option<JsString>, reset: bool)

  /** `form.querySelector(sel)?.value.trim()`: None (undefined) when the field
      is missing from the form. */
  function TrimmedField(field: Option<JsString>): Option<JsString> {
    match field
    case None => None
    case Some(v) => Some(Trim(v))
  }

  /** JavaScript falsiness of the trimmed field: undefined or "". */
  predicate Falsy(v: Option<JsString>) {
    v.None? || v.value == []
  }

  /**
   * The submit handler. When encodeURIComponent throws URIError (a lone
   * surrogate in a field) the exception leaves the handler before the tab is
   * opened: no notice, no URL, no reset.
   */
  function Submit(nombre: Option<JsString>, mensaje: Option<JsString>): (e: Effect)
    ensures e.url.Some? <==> e.notice == Some(SuccessNotice)
    ensures e.reset <==> e.url.Some?
    ensures e.url.Some? ==> |e.url.value| >= |UrlPrefix| && e.url.value[..|UrlPrefix|] == UrlPrefix
  {
    var name := TrimmedField(nombre);
    var message := TrimmedField(mensaje);
    if Falsy(name) || Falsy(message) then
      Effect(Some(ErrorNotice), None, false)
    else
      match EncodeURIComponent(Template(name.value, message.value))
      case None => Effect(None, None, false)
      case Some(text) => Effect(Some(SuccessNotice), Some(UrlPrefix + text), true)
  }

  /** A field the user left blank: missing, empty, or only white space. */
  predicate Blank(field: Option<JsString>) {
    field.None? || AllWhiteSpace(field.value)
  }

  /** The error notice is shown exactly when a field is blank, and then no URL
      is opened and the form is kept. */
  lemma SubmitRejectsBlank(nombre: Option<JsString>, mensaje: Option<JsString>)
    ensures Submit(nombre, mensaje).notice == Some(ErrorNotice) <==> Blank(nombre) || Blank(mensaje)
    ensures Blank(nombre) || Blank(mensaje) ==>
              Submit(nombre, mensaje) == Effect(Some(ErrorNotice), None, false)
  {
  }

  /** The template is well formed exactly when both fields are: its fixed
      parts hold no surrogate, so no pair can form across a boundary. */
  lemma TemplateWellFormed(name: JsString, message: JsString)
    ensures WellFormed(Template(name, message)) <==> WellFormed(name) && WellFormed(message)
  {
    assert WellFormed(Greeting) && WellFormed(AfterName);
    assert Greeting[|Greeting| - 1] == '*' as int;
    assert AfterName[0] == '*' as int;
    WellFormedConcat(Greeting, name);
    WellFormedConcat(Greeting + name, AfterName);
    WellFormedConcat(Greeting + name + AfterName, message);
  }

  /**
   * With both fields filled in and free of lone surrogates, the submission
   * opens the fixed WhatsApp URL followed by an escaped text that decodes to
   * the template filled with the trimmed fields, shows the success notice and
   * resets the form. A lone surrogate instead makes the handler throw.
   */
  lemma SubmitOpensWhatsApp(nombre: Option<JsString>, mensaje: Option<JsString>)
    requires !Blank(nombre) && !Blank(mensaje)
    ensures var e := Submit(nombre, mensaje);
      if WellFormed(nombre.value) && WellFormed(mensaje.value) then
        && e.notice == Some(SuccessNotice) && e.reset && e.url.Some?
        && |e.url.value| >= |UrlPrefix|
        && e.url.value[..|UrlPrefix|] == UrlPrefix
        && Escaped(e.url.value[|UrlPrefix|..])
        && Minimal(e.url.value[|UrlPrefix|..])
        && DecodeURIComponent(e.url.value[|UrlPrefix|..])
           == Some(Template(Trim(nombre.value), Trim(mensaje.value)))
      else
        e == Effect(None, None, false)
  {
    var name, message := Trim(nombre.value), Trim(mensaje.value);
    var text := Template(name, message);
    TrimWellFormed(nombre.value);
    TrimWellFormed(mensaje.value);
    TemplateWellFormed(name, message);
    EncodeDefinedIff(text);
    if WellFormed(text) {
      DecodeEncode(text);
      EncodeEscaped(text);
      EncodeMinimal(text);
      var url := UrlPrefix + EncodeURIComponent(text).value;
      assert url[..|UrlPrefix|] == UrlPrefix;
      assert url[|UrlPrefix|..] == EncodeURIComponent(text).value;
    }
  }
}
