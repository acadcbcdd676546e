/** The API key check in front of every JSON route (_require_api_key,
    app.py:489-494). */
module AccessGate {
  import opened Replies

  /** `apiKey` is API_KEY as read from the environment (empty when unset);
      `header` is the X-API-Key request header, None when the request has
      none. None lets the request through; Some(Unauthorized) is the 401
      answer. */
  function RequireApiKey(apiKey: string, header: Option<string>): (r: Option<Failure>)
    ensures r.Some? ==> r.value == Unauthorized
  {
    if apiKey == "" then None
    else if header != Some(apiKey) then Some(Unauthorized)
    else None
  }

  /** With no key configured the gate is open to every request. */
  lemma OpenWithoutKey(header: Option<string>)
    ensures RequireApiKey("", header) == None
  {
  }

  /** With a key configured, a request passes exactly when it carries that
      key, character for character: a missing header, an empty one, or a
      key that differs in case or by surrounding blanks is turned away. */
  lemma PassesIffExactKey(apiKey: string, header: Option<string>)
    requires apiKey != ""
    ensures RequireApiKey(apiKey, header) == None <==> header.Some? && header.value == apiKey
  {
  }

  /** The two kinds of request the gate turns away when a key is set. */
  lemma RejectsMissingOrEmpty(apiKey: string)
    requires apiKey != ""
    ensures RequireApiKey(apiKey, None) == Some(Unauthorized)
    ensures RequireApiKey(apiKey, Some("")) == Some(Unauthorized)
  {
  }
}
