/**
 * `GlueSnippet`: the upload state. It holds the API key and paste URL read
 * from the settings, the file name and the text parts to upload, and the
 * outcome of the last save attempt in `lastResult` and `lastError`.
 */
module Snippet {
  import opened Python
  import opened SublimeText

  /** The placeholder the default settings file ships as its API key. */
  const ApiKeyPlaceholder: string := "APIKEYGOESHERE"
  const ApiKeyMessage: string := "Please enter a valid API key!"
  const PasteUrlMessage: string := "Please enter a valid paste url!"

  /**
   * `lastResult`: `None` before any request, `False` after a transport
   * error, or the response object, whose `geturl()` is its final URL. A
   * response object is truthy.
   */
  datatype LastResult = NoResult | Failed | Response(finalUrl: string) {
    predicate Truthy() { Response? }
  }

  /**
   * `lastError`: `None`, one of the validation messages, or the `IOError`
   * caught around the request. An exception object is truthy.
   */
  datatype LastError = NoError | Message(text: string) | IoError(reason: string) {
    predicate Truthy() {
      match this
      case NoError => false
      case Message(text) => text != []
      case IoError(_) => true
    }
  }

  /**
   * What the POST to the paste URL does: it follows the redirect, raises
   * `IOError` (which `save` catches), or raises another exception that `save`
   * does not catch, such as `ValueError` for a URL without a scheme,
   * `AttributeError` for a paste URL that is not a string, or an
   * `HTTPException` that is not an `IOError`.
   */
  datatype PostOutcome = Redirected(finalUrl: string) | IoFailure(reason: string) | Raised(exception: string)

  /**
   * The request `save` issues: the paste URL it posts to and the form
   * fields `snippets`, `apiKey`, `filename` and `redirect`.
   */
  datatype Request = Request(pasteUrl: Value, snippets: seq<string>, apiKey: Value, filename: string, redirect: bool)

  /** The check `hasAPIKey` makes: the key is truthy and not the placeholder. */
  predicate ValidApiKey(key: Value) {
    Truthy(key) && key != Str(ApiKeyPlaceholder)
  }

  /** The check `hasPasteURL` makes: the URL is truthy. */
  predicate ValidPasteUrl(url: Value) {
    Truthy(url)
  }

  class GlueSnippet {
    const apiKey: Value
    const pasteUrl: Value
    const filename: string
    const regions: seq<string>
    var lastResult: LastResult
    var lastError: LastError

    /** Reads the key and URL from the settings; no save has been attempted yet. */
    constructor (settings: Settings, filename: string, regions: seq<string>)
      ensures apiKey == PackageSetting(settings, "api_key")
      ensures pasteUrl == PackageSetting(settings, "paste_url")
      ensures this.filename == filename && this.regions == regions
      ensures lastResult == NoResult && lastError == NoError
    {
      apiKey := PackageSetting(settings, "api_key");
      pasteUrl := PackageSetting(settings, "paste_url");
      this.filename := filename;
      this.regions := regions;
      lastResult := NoResult;
      lastError := NoError;
    }

    /** `url()`: the response's final URL, or `False` (here `None`) without a truthy result. */
    function Url(): (u: Option<string>)
      reads this
      ensures u.Some? ==> lastResult == Response(u.value)
      ensures u.None? ==> !lastResult.Truthy()
    {
      if !lastResult.Truthy() then None else Some(lastResult.finalUrl)
    }

    /** `saved()`: a truthy result and no truthy error; a saved snippet has a URL. */
    predicate Saved()
      reads this
      ensures Saved() ==> Url().Some?
    {
      lastResult.Truthy() && !lastError.Truthy()
    }

    /** The request `save` sends, with the form fields built from this snippet. */
    function Payload(): (request: Request) {
      Request(pasteUrl, regions, apiKey, filename, true)
    }

    /** `hasAPIKey()`: records the API-key message exactly when the key is unusable. */
    method HasApiKey() returns (ok: bool)
      modifies this`lastError
      ensures ok == ValidApiKey(apiKey)
      ensures lastError == if ok then old(lastError) else Message(ApiKeyMessage)
    {
      if !Truthy(apiKey) || apiKey == Str(ApiKeyPlaceholder) {
        lastError := Message(ApiKeyMessage);
        return false;
      }
      return true;
    }

    /** `hasPasteURL()`: records the paste-URL message exactly when the URL is falsy. */
    method HasPasteUrl() returns (ok: bool)
      modifies this`lastError
      ensures ok == ValidPasteUrl(pasteUrl)
      ensures lastError == if ok then old(lastError) else Message(PasteUrlMessage)
    {
      if !Truthy(pasteUrl) {
        lastError := Message(PasteUrlMessage);
        return false;
      }
      return true;
    }

    /**
     * `save()`: validates the key, then (only if the key is valid) the URL;
     * when both pass it posts the payload once and records the outcome.
     * `sent` is the request issued, `None` when none was. The network is the
     * parameter `reply`, consulted only when a request is sent. `escaped` is
     * the exception that propagates out of `save`, if any; then `save`
     * returns nothing and leaves the state as the checks left it.
     */
    method Save(reply: PostOutcome) returns (self: GlueSnippet, sent: Option<Request>, escaped: Option<string>)
      modifies this`lastResult, this`lastError
      ensures self == this
      ensures sent.Some? <==> ValidApiKey(apiKey) && ValidPasteUrl(pasteUrl)
      ensures sent.Some? ==> sent.value == Payload()
      // validation failed: nothing sent, the result untouched, the first failing check's message
      ensures sent.None? ==> lastResult == old(lastResult)
      ensures !ValidApiKey(apiKey) ==> lastError == Message(ApiKeyMessage)
      ensures ValidApiKey(apiKey) && !ValidPasteUrl(pasteUrl) ==> lastError == Message(PasteUrlMessage)
      // a request was sent: its outcome is recorded
      ensures sent.Some? && reply.Redirected? ==>
                lastResult == Response(reply.finalUrl) && lastError == old(lastError)
      ensures sent.Some? && reply.IoFailure? ==>
                lastResult == Failed && lastError == IoError(reply.reason)
      // only an exception other than `IOError` escapes, and only from a sent request
      ensures escaped.Some? <==> sent.Some? && reply.Raised?
      ensures escaped.Some? ==>
                escaped.value == reply.exception &&
                lastResult == old(lastResult) && lastError == old(lastError)
    {
      self := this;
      sent, escaped := None, None;
      var keyOk := HasApiKey();
      if keyOk {
        var urlOk := HasPasteUrl();
        if urlOk {
          sent := Some(Payload());
          match reply
          case Redirected(finalUrl) =>
            lastResult := Response(finalUrl);
          case IoFailure(reason) =>
            lastError := IoError(reason);
            lastResult := Failed;
          case Raised(exception) =>
            escaped := Some(exception);
        }
      }
    }
  }

  /**
   * A snippet whose earlier save failed in transport stays unsaved after a
   * later save succeeds: `save` never clears `lastError`, so the URL is
   * there but `saved()` is false.
   */
  method SaveAgainAfterTransportError(settings: Settings, filename: string, regions: seq<string>, url: string)
    returns (saved: bool, finalUrl: Option<string>)
    requires ValidApiKey(PackageSetting(settings, "api_key"))
    requires ValidPasteUrl(PackageSetting(settings, "paste_url"))
    ensures !saved && finalUrl == Some(url)
  {
    var snippet := new GlueSnippet(settings, filename, regions);
    var _, _, _ := snippet.Save(IoFailure("connection refused"));
    var self, _, _ := snippet.Save(Redirected(url));
    saved := self.Saved();
    finalUrl := self.Url();
  }
}
