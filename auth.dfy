/** The decision `require_api_key` takes before a protected route runs, and the quote
    stripping applied to the `ACCOUNTS_CONFIG` setting before it is parsed. */
module Auth {
  import opened Common

  datatype Decision =
    | Proceed
    | Reject(status: nat, errorType: string, message: string)

  const BearerPrefix := "Bearer "
  const ApiKeyPrefix := "Api-Key "

  predicate OccursAt(s: string, pattern: string, i: int)
  {
    0 <= i <= |s| - |pattern| && s[i..i + |pattern|] == pattern
  }

  /** `pattern` occurs somewhere in `s`. */
  ghost predicate Occurs(s: string, pattern: string)
  {
    exists i :: OccursAt(s, pattern, i)
  }

  /** `s.replace(pattern, '')`: removes the occurrences found scanning left to right,
      none overlapping the previous one. */
  function RemoveAll(s: string, pattern: string): (r: string)
    requires pattern != []
    ensures |r| <= |s|
    decreases |s|
  {
    if |s| < |pattern| then s
    else if s[..|pattern|] == pattern then RemoveAll(s[|pattern|..], pattern)
    else [s[0]] + RemoveAll(s[1..], pattern)
  }

  /** A text with no occurrence of the pattern is left as it is. */
  lemma {:induction false} RemoveAllAbsent(s: string, pattern: string)
    requires pattern != [] && !Occurs(s, pattern)
    ensures RemoveAll(s, pattern) == s
    decreases |s|
  {
    if |s| >= |pattern| {
      assert !OccursAt(s, pattern, 0);
      if Occurs(s[1..], pattern) {
        var i :| OccursAt(s[1..], pattern, i);
        assert s[1..][i..i + |pattern|] == s[i + 1..i + 1 + |pattern|];
        assert OccursAt(s, pattern, i + 1);
        assert false;
      }
      RemoveAllAbsent(s[1..], pattern);
    }
  }

  /** The key the client sent: the `Authorization` header with every `Bearer ` and
      then every `Api-Key ` removed. */
  function ProvidedKey(authorization: string): string
  {
    RemoveAll(RemoveAll(authorization, BearerPrefix), ApiKeyPrefix)
  }

  /** `require_api_key`. `requireAuth` is `REQUIRE_AUTH` lower-cased equal to `true`,
      `configuredKey` is `DOWNSTREAM_API_KEY` and `authorization` the request header
      (empty when absent). */
  function Authorize(requireAuth: bool, configuredKey: string, authorization: string): (d: Decision)
    ensures d.Proceed? <==> !requireAuth || (configuredKey != [] && ProvidedKey(authorization) == configuredKey)
    ensures d.Reject? ==> d.status in {401, 503}
    ensures d.Reject? && d.status == 503 <==> requireAuth && configuredKey == []
    ensures d.Reject? && configuredKey != [] ==>
      d.errorType == if ProvidedKey(authorization) == [] then "authentication_required" else "authentication_failed"
  {
    if !requireAuth then Proceed
    else if configuredKey == [] then
      Reject(503, "configuration_error", "Server requires authentication but API key not configured")
    else
      var provided := ProvidedKey(authorization);
      if provided == [] then Reject(401, "authentication_required", "Authentication required")
      else if provided != configuredKey then Reject(401, "authentication_failed", "Invalid API key")
      else Proceed
  }

  /** A key free of the two prefixes is accepted bare, after `Bearer ` and after
      `Api-Key `. */
  lemma AcceptsConfiguredKey(key: string)
    requires key != [] && !Occurs(key, BearerPrefix) && !Occurs(key, ApiKeyPrefix)
    ensures Authorize(true, key, key).Proceed?
    ensures Authorize(true, key, BearerPrefix + key).Proceed?
    ensures Authorize(true, key, ApiKeyPrefix + key).Proceed?
  {
    RemoveAllAbsent(key, BearerPrefix);
    RemoveAllAbsent(key, ApiKeyPrefix);
    var b := BearerPrefix + key;
    assert b[..|BearerPrefix|] == BearerPrefix && b[|BearerPrefix|..] == key;
    var a := ApiKeyPrefix + key;
    assert a[..|BearerPrefix|] != BearerPrefix by {
      assert a[0] == 'A';
    }
    assert RemoveAll(a, BearerPrefix) == [a[0]] + RemoveAll(a[1..], BearerPrefix);
    NoBearerInApiKey(key);
    RemoveAllAbsent(a, BearerPrefix);
    assert a[..|ApiKeyPrefix|] == ApiKeyPrefix && a[|ApiKeyPrefix|..] == key;
  }

  /** `Api-Key ` followed by a key free of `Bearer ` holds no `Bearer `. */
  lemma NoBearerInApiKey(key: string)
    requires !Occurs(key, BearerPrefix)
    ensures !Occurs(ApiKeyPrefix + key, BearerPrefix)
  {
    var a := ApiKeyPrefix + key;
    forall i
      ensures !OccursAt(a, BearerPrefix, i)
    {
      if 0 <= i <= |a| - |BearerPrefix| {
        if i < |ApiKeyPrefix| {
          assert a[i] == ApiKeyPrefix[i];
          assert a[i..i + |BearerPrefix|][0] == a[i];
        } else {
          var j := i - |ApiKeyPrefix|;
          assert a[i..i + |BearerPrefix|] == key[j..j + |BearerPrefix|];
          assert !OccursAt(key, BearerPrefix, j);
        }
      }
    }
  }

  /** The text of `ACCOUNTS_CONFIG` that is handed to `json.loads`: nothing when the
      setting is blank; otherwise the stripped text, with one pair of surrounding single
      quotes, or else of double quotes, removed. */
  function AccountsJsonText(raw: string): (r: Option<string>)
    ensures Strip(raw) == [] <==> r.None?
    ensures r.Some? ==> |r.value| <= |Strip(raw)|
  {
    var s := Strip(raw);
    if s == [] then None
    else if (StartsWith(s, "'") && EndsWith(s, "'")) || (StartsWith(s, "\"") && EndsWith(s, "\"")) then
      Some(if |s| >= 2 then s[1..|s| - 1] else [])
    else Some(s)
  }

  /** A quoted value gives back the text between the quotes. */
  lemma AccountsJsonTextUnquotes(text: string, quote: char)
    requires quote == '\'' || quote == '"'
    ensures AccountsJsonText([quote] + text + [quote]) == Some(text)
  {
    var s := [quote] + text + [quote];
    assert !IsWhitespace(s[0]) && !IsWhitespace(s[|s| - 1]);
    LStripUnchanged(s);
    RStripUnchanged(s);
    assert Strip(s) == s;
    assert s[..1] == [quote] && s[|s| - 1..] == [quote];
    assert StartsWith(s, [quote]) && EndsWith(s, [quote]);
    assert s[1..|s| - 1] == text;
  }

  /** A stripped value that is not quoted on both sides, such as a JSON list, is handed
      over unchanged. */
  lemma AccountsJsonTextUnquoted(text: string)
    requires text != [] && !IsWhitespace(text[0]) && !IsWhitespace(text[|text| - 1])
    requires text[0] != '\'' && text[0] != '"'
    ensures AccountsJsonText(text) == Some(text)
  {
    LStripUnchanged(text);
    RStripUnchanged(text);
  }
}
