/**
 * `ModuleRequestHandler`: a label, lower-cased once when the handler is made,
 * and the answer the handler gives to a request's metadata.
 */
module RequestHandlers {
  import opened Common
  import opened Text
  import opened Platform

  /** A request's metadata map. */
  type MetaData = map<string, Value>

  /** `handle` is the add-on's own code; `None` stands for a `null` answer. */
  datatype RequestHandler = RequestHandler(labelText: string, handle: MetaData -> Option<Value>)

  /** The constructor: the stored label is the given one in lower case. */
  function NewHandler(labelText: string, handle: MetaData -> Option<Value>): (h: RequestHandler)
    ensures IsLowerCase(h.labelText)
    ensures EqualsIgnoreCase(h.labelText, labelText)
    ensures h.handle == handle
  {
    ToLowerIdempotent(labelText);
    EqualsIgnoreCaseIffLower(ToLower(labelText), labelText);
    RequestHandler(ToLower(labelText), handle)
  }

  /** Two handlers made with labels that differ only in letter case report the
      same label, and labels that differ otherwise stay apart. */
  lemma CaseVariantsShareLabel(a: string, b: string, f: MetaData -> Option<Value>, g: MetaData -> Option<Value>)
    ensures NewHandler(a, f).labelText == NewHandler(b, g).labelText <==> EqualsIgnoreCase(a, b)
  {
    EqualsIgnoreCaseIffLower(a, b);
  }

  /** Lower-casing a stored label again gives the same label, which is why a
      request under any case variant finds the handler. */
  lemma LabelIsNormalised(labelText: string, f: MetaData -> Option<Value>)
    ensures ToLower(NewHandler(labelText, f).labelText) == NewHandler(labelText, f).labelText
  {
    ToLowerIdempotent(labelText);
  }
}
