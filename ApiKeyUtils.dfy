/**
 * The API-key helpers: a format check for keys, and the key store made of
 * the persisted `openai_api_key` entry and the page-global `openai_key`
 * property, which the code only writes.
 */
module ApiKeyUtils {
  import opened Wrappers
  import opened JsString

  /** The prefix every accepted key starts with. */
  const ApiKeyPrefix: string := "sk-"

  /** The name of the persisted entry that holds the key. */
  const StorageEntryName: string := "openai_api_key"

  /**
   * `isValidApiKey(key)`: the key is truthy (non-empty), not blank after
   * trimming, starts with `sk-` and is longer than 10 characters. Prefix
   * and length are checked on the key as given, not on its trimmed form.
   * The emptiness and blankness tests are implied by the prefix test: a key
   * is accepted exactly when it starts with `sk-` and has more than 10
   * characters.
   */
  predicate IsValidApiKey(key: string)
    ensures IsValidApiKey(key) <==> ApiKeyPrefix <= key && |key| > 10
  {
    assert ApiKeyPrefix <= key ==> !IsJsWhitespace(key[0]);
    |key| > 0 && Trim(key) != "" && ApiKeyPrefix <= key && |key| > 10
  }

  /** A key that starts with whitespace is rejected, whatever follows. */
  lemma LeadingWhitespaceRejected(key: string)
    requires |key| > 0 && IsJsWhitespace(key[0])
    ensures !IsValidApiKey(key)
  {
    assert key[0] != ApiKeyPrefix[0];
  }

  /**
   * Trailing whitespace counts toward the length: a key that starts with
   * `sk-` is accepted once padding takes it past 10 characters.
   */
  lemma TrailingWhitespaceCounts(key: string, padding: string)
    requires ApiKeyPrefix <= key
    requires forall i :: 0 <= i < |padding| ==> IsJsWhitespace(padding[i])
    requires |key| + |padding| > 10
    ensures IsValidApiKey(key + padding)
  {
    assert ApiKeyPrefix <= key + padding;
  }

  /** The length boundary and the empty key. */
  lemma IsValidApiKeyBoundaries(ten: string, eleven: string, empty: string)
    requires ten == "sk-1234567" && eleven == "sk-12345678" && empty == ""
    ensures !IsValidApiKey(ten) && IsValidApiKey(eleven) && !IsValidApiKey(empty)
  {
    assert ApiKeyPrefix <= eleven;
  }

  /**
   * The key store. `stored` is the persisted `openai_api_key` entry (None
   * when absent); `globalKey` is the page-global `openai_key` property
   * (None while it is undefined).
   */
  class ApiKeyStore {
    var stored: Option<string>
    var globalKey: Option<string>

    /**
     * A fresh page: the persisted entry survives from earlier sessions,
     * the global property is not yet defined.
     */
    constructor (persisted: Option<string>)
      ensures stored == persisted && globalKey == None
    {
      stored := persisted;
      globalKey := None;
    }

    /**
     * The key that `getApiKey` reports: the persisted entry, with an absent
     * entry read as the empty string.
     */
    function CurrentKey(): string
      reads this
    {
      match stored
      case Some(k) => k
      case None => ""
    }

    /** `getApiKey()`: reads the key and changes nothing. */
    method GetApiKey() returns (key: string)
      ensures key == CurrentKey()
      ensures stored == None ==> key == ""
      ensures stored != None ==> Some(key) == stored
    {
      key := match stored case Some(k) => k case None => "";
    }

    /** `setupOpenAIKey(key)`: sets the global copy and nothing else. */
    method SetupOpenAIKey(key: string)
      modifies this`globalKey
      ensures globalKey == Some(key)
      ensures stored == old(stored)
    {
      globalKey := Some(key);
    }

    /**
     * `saveApiKey(key)`: persists the key as given, with no format check
     * (an invalid key is stored verbatim), and sets the global copy;
     * afterwards `getApiKey` reports it.
     */
    method SaveApiKey(key: string)
      modifies this
      ensures stored == Some(key) && globalKey == Some(key)
      ensures CurrentKey() == key
    {
      stored := Some(key);
      SetupOpenAIKey(key);
    }

    /**
     * `clearApiKey()`: removes the persisted entry, so `getApiKey` reports
     * the empty string; the global copy is left as it was.
     */
    method ClearApiKey()
      modifies this`stored
      ensures stored == None && CurrentKey() == ""
      ensures globalKey == old(globalKey)
    {
      stored := None;
    }
  }
}
