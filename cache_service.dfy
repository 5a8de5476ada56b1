/** The obfuscated local cache of `src/services/cacheService.js`: a value is written as
    its JSON text behind a fixed salt, percent-encoded and then Base64-encoded, and kept
    in `localStorage` under a fixed key prefix. */
module Cache {
  import opened Wrappers
  import opened Text
  import opened Json
  import Uri
  import Base64
  import opened BrowserStorage

  const CachePrefix: string := "fitlife_secure_"
  const Salt: string := "fitlife_salt_v1_"

  /** The text `SALT + JSON.stringify(data)`; `JSON.stringify(undefined)` is `undefined`,
      which the concatenation turns into the text "undefined". */
  function SaltedText(r: StringifyResult): string
    requires !r.Throws?
  {
    Salt + (if r.Text? then r.text else "undefined")
  }

  /** `encrypt(data)`; `None` where an exception is caught and `null` returned. */
  function Encrypt(data: JsValue): (r: Option<string>)
  {
    var json := StringifyJs(data);
    if json.Throws? then None
    else Base64.Btoa(Uri.EncodeURIComponent(SaltedText(json)))
  }

  /** `decrypt(encryptedData)`; `None` where it returns `null`, either because the
      salt is missing or because `atob`, `decodeURIComponent` or `JSON.parse` threw.
      A stored JSON `null` decrypts to `Some(JNull)`, which the page also sees as
      `null`. */
  function Decrypt(encrypted: string): (r: Option<Json>)
  {
    match Base64.Atob(encrypted)
    case None => None
    case Some(decoded) =>
      match Uri.DecodeURIComponent(decoded)
      case None => None
      case Some(text) =>
        if !StartsWith(text, Salt) then None
        else Parse(text[|Salt|..])
  }

  // ---------------------------------------------------------------------------
  // Properties of the codec

  lemma EncodedIsLatin1(s: string)
    ensures Base64.IsLatin1(Uri.EncodeURIComponent(s))
  {
    Uri.EncodeIsAscii(s);
  }

  /** `encrypt` returns `null` exactly when `JSON.stringify` throws. */
  lemma EncryptFails(data: JsValue)
    ensures Encrypt(data).None? <==> data.Unserialisable?
  {
    if !data.Unserialisable? {
      EncodedIsLatin1(SaltedText(StringifyJs(data)));
    }
  }

  /** The Base64 text `btoa` gave for the percent-encoded salted text decodes back to it. */
  lemma DecodeEncrypted(data: JsValue)
    requires !data.Unserialisable?
    ensures Encrypt(data).Some?
    ensures var text := SaltedText(StringifyJs(data));
      Base64.Atob(Encrypt(data).value) == Some(Uri.EncodeURIComponent(text))
      && Uri.DecodeURIComponent(Uri.EncodeURIComponent(text)) == Some(text)
  {
    var text := SaltedText(StringifyJs(data));
    EncodedIsLatin1(text);
    Base64.AtobBtoa(Uri.EncodeURIComponent(text));
    Uri.DecodeEncode(text);
  }

  lemma SaltedPrefix(t: string)
    ensures StartsWith(Salt + t, Salt) && (Salt + t)[|Salt|..] == t
  {
    assert (Salt + t)[..|Salt|] == Salt;
  }

  /** `decrypt(encrypt(d))` is `d` for every JavaScript value `d` that is JSON. */
  lemma DecryptEncrypt(j: Json)
    requires WellFormed(j)
    ensures Encrypt(Plain(j)).Some? && Decrypt(Encrypt(Plain(j)).value) == Some(j)
  {
    DecodeEncrypted(Plain(j));
    SaltedPrefix(Stringify(j));
    ParseStringify(j);
  }

  /** `encrypt(undefined)` is not `null`, but it decrypts to `null`. */
  lemma DecryptEncryptUndefined()
    ensures Encrypt(Undefined).Some? && Decrypt(Encrypt(Undefined).value) == None
  {
    DecodeEncrypted(Undefined);
    SaltedPrefix("undefined");
    ParseUndefinedText();
  }

  /** What `encrypt` returns is non-empty Base64 text. */
  lemma EncryptAlphabet(data: JsValue)
    requires Encrypt(data).Some?
    ensures var e := Encrypt(data).value;
      |e| > 0 && |e| % 4 == 0 && forall i :: 0 <= i < |e| ==> Base64.IsBase64Char(e[i]) || e[i] == '='
  {
    var text := Uri.EncodeURIComponent(SaltedText(StringifyJs(data)));
    EncodedIsLatin1(SaltedText(StringifyJs(data)));
    Uri.DecodeEncode(SaltedText(StringifyJs(data)));
    assert text != [];
    Base64.EncodeLength(Base64.Latin1Bytes(text));
    Base64.EncodeAlphabet(Base64.Latin1Bytes(text));
  }

  /** The tamper check: a decoded text without the salt gives `null`; one with it
      gives what `JSON.parse` makes of the text after the salt. */
  lemma DecryptSaltCheck(encrypted: string, decoded: string, text: string)
    requires Base64.Atob(encrypted) == Some(decoded)
    requires Uri.DecodeURIComponent(decoded) == Some(text)
    ensures !StartsWith(text, Salt) ==> Decrypt(encrypted) == None
    ensures StartsWith(text, Salt) ==> Decrypt(encrypted) == Parse(text[|Salt|..])
  {
  }

  /** A failure of `atob` or `decodeURIComponent` gives `null`, not an exception. */
  lemma DecryptFailures(encrypted: string)
    ensures Base64.Atob(encrypted).None? ==> Decrypt(encrypted).None?
    ensures Base64.Atob(encrypted).Some? && Uri.DecodeURIComponent(Base64.Atob(encrypted).value).None?
      ==> Decrypt(encrypted).None?
  {
  }

  // ---------------------------------------------------------------------------
  // The cache over the store

  /** What `get(key)` returns over the store contents `items`. */
  function Lookup(items: map<string, string>, key: string): (r: Option<Json>)
    ensures (CachePrefix + key !in items || items[CachePrefix + key] == "") ==> r.None?
  {
    if CachePrefix + key !in items || items[CachePrefix + key] == "" then None
    else Decrypt(items[CachePrefix + key])
  }

  /** The store contents after `clear()`: every entry whose key has the prefix is gone. */
  ghost predicate Cleared(before: map<string, string>, after: map<string, string>) {
    (forall k :: k in after <==> k in before && !StartsWith(k, CachePrefix))
    && (forall k :: k in after ==> after[k] == before[k])
  }

  class CacheService {
    const store: LocalStorage

    constructor(store: LocalStorage)
      ensures this.store == store
    {
      this.store := store;
    }

    /** `set(key, data)`: writes `CACHE_PREFIX + key` when `encrypt` gives a non-empty
        text, and nothing otherwise.  A `setItem` that throws is not caught: `threw`
        reports it escaping, with the store unchanged. */
    method Set(key: string, data: JsValue) returns (threw: bool)
      modifies store
      ensures var e := Encrypt(data);
        threw <==> e.Some? && e.value != "" && !store.Accepts(old(store.items)[CachePrefix + key := e.value])
      ensures store.items ==
        if Encrypt(data).Some? && Encrypt(data).value != "" && !threw
        then old(store.items)[CachePrefix + key := Encrypt(data).value]
        else old(store.items)
    {
      threw := false;
      var encrypted := Encrypt(data);
      if encrypted.Some? && encrypted.value != "" {
        var ok := store.SetItem(CachePrefix + key, encrypted.value);
        threw := !ok;
      }
    }

    /** `get(key)`; a `getItem` that throws escapes, as `threw` reports. */
    method Get(key: string) returns (threw: bool, r: Option<Json>)
      ensures threw <==> !store.available
      ensures !threw ==> r == Lookup(store.items, key)
    {
      var ok, encrypted := store.GetItem(CachePrefix + key);
      threw := !ok;
      if !ok || encrypted.None? || encrypted.value == "" {
        r := None;
      } else {
        r := Decrypt(encrypted.value);
      }
    }

    /** `remove(key)`; a `removeItem` that throws escapes, with the store unchanged. */
    method Remove(key: string) returns (threw: bool)
      modifies store
      ensures threw <==> !store.available
      ensures store.items == if threw then old(store.items) else old(store.items) - {CachePrefix + key}
    {
      var ok := store.RemoveItem(CachePrefix + key);
      threw := !ok;
    }

    /** `clear()`: visits every key of the store and removes the ones with the prefix.
        When storage is blocked, reading its keys throws before anything is removed. */
    method Clear() returns (threw: bool)
      modifies store
      ensures threw <==> !store.available
      ensures if threw then store.items == old(store.items) else Cleared(old(store.items), store.items)
    {
      threw := !store.available;
      if threw {
        return;
      }
      var keys := store.items.Keys;
      while keys != {}
        invariant keys <= old(store.items).Keys
        invariant forall k :: k in store.items <==> k in old(store.items) && (k in keys || !StartsWith(k, CachePrefix))
        invariant forall k :: k in store.items ==> store.items[k] == old(store.items)[k]
        decreases keys
      {
        var k :| k in keys;
        if StartsWith(k, CachePrefix) {
          var ok := store.RemoveItem(k);
        }
        keys := keys - {k};
      }
    }
  }

  // ---------------------------------------------------------------------------
  // Properties of the cache

  /** Right after `set(key, d)`, `get(key)` gives `d`. */
  lemma GetAfterSet(items: map<string, string>, key: string, j: Json)
    requires WellFormed(j)
    ensures Encrypt(Plain(j)).Some?
    ensures Lookup(items[CachePrefix + key := Encrypt(Plain(j)).value], key) == Some(j)
  {
    DecryptEncrypt(j);
    EncryptAlphabet(Plain(j));
  }

  /** `set` of one key leaves what `get` gives for every other key. */
  lemma SetOtherKey(items: map<string, string>, key: string, other: string, e: string)
    requires other != key
    ensures Lookup(items[CachePrefix + key := e], other) == Lookup(items, other)
  {
    assert CachePrefix + other != CachePrefix + key by {
      assert (CachePrefix + other)[|CachePrefix|..] == other;
      assert (CachePrefix + key)[|CachePrefix|..] == key;
    }
  }

  /** After `remove(key)`, `get(key)` gives `null`, and a second `remove` changes nothing. */
  lemma RemoveIdempotent(items: map<string, string>, key: string)
    ensures Lookup(items - {CachePrefix + key}, key).None?
    ensures (items - {CachePrefix + key}) - {CachePrefix + key} == items - {CachePrefix + key}
  {
  }

  /** After `clear()`, `get` gives `null` for every key. */
  lemma GetAfterClear(before: map<string, string>, after: map<string, string>, key: string)
    requires Cleared(before, after)
    ensures Lookup(after, key).None?
  {
    assert StartsWith(CachePrefix + key, CachePrefix) by {
      assert (CachePrefix + key)[..|CachePrefix|] == CachePrefix;
    }
  }
}
