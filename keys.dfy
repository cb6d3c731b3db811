/** The storage keys under which App.js keeps each photo's recognised text:
    `generateStorageKey` and `getUriFromStorageKey`. */
module StorageKeys {

  const KeyPrefix: string := "img_"

  /** A character outside the JavaScript regular-expression class `\W`. */
  predicate IsWordChar(c: char)
  {
    'A' <= c <= 'Z' || 'a' <= c <= 'z' || '0' <= c <= '9' || c == '_'
  }

  /** The characters a URI may hold for its key to decode back to it. */
  predicate IsKeySafe(c: char)
  {
    'A' <= c <= 'Z' || 'a' <= c <= 'z' || '0' <= c <= '9' || c == '/'
  }

  /** `uri.replace(/\W/g, '_')`. */
  function Sanitize(uri: string): (s: string)
    ensures |s| == |uri|
    ensures forall i | 0 <= i < |s| :: IsWordChar(s[i])
    ensures forall i | 0 <= i < |s| :: s[i] == uri[i] <==> IsWordChar(uri[i])
  {
    seq(|uri|, i requires 0 <= i < |uri| => if IsWordChar(uri[i]) then uri[i] else '_')
  }

  /** `generateStorageKey`: "img_" followed by the URI with every non-word
      character replaced by '_'. */
  function GenerateStorageKey(uri: string): (key: string)
    ensures |key| == |uri| + |KeyPrefix| && KeyPrefix <= key
    ensures forall i | |KeyPrefix| <= i < |key| :: IsWordChar(key[i])
  {
    KeyPrefix + Sanitize(uri)
  }

  /** `s.replace(/_/g, '/')`. */
  function Unsanitize(s: string): (uri: string)
    ensures |uri| == |s| && '_' !in uri
    ensures forall i | 0 <= i < |s| :: s[i] != '_' ==> uri[i] == s[i]
  {
    seq(|s|, i requires 0 <= i < |s| => if s[i] == '_' then '/' else s[i])
  }

  /** `getUriFromStorageKey`: a key starting with "img_" loses that prefix and
      has every '_' turned into '/'; any other key is returned unchanged. */
  function GetUriFromStorageKey(key: string): (uri: string)
    ensures !(KeyPrefix <= key) ==> uri == key
    ensures KeyPrefix <= key ==> |uri| + |KeyPrefix| == |key| && '_' !in uri
  {
    if KeyPrefix <= key then Unsanitize(key[|KeyPrefix|..]) else key
  }

  /** A URI survives the trip through its storage key exactly when it is made of
      ASCII letters, digits and '/'. */
  lemma RoundTrip(uri: string)
    ensures GetUriFromStorageKey(GenerateStorageKey(uri)) == uri <==> forall c | c in uri :: IsKeySafe(c)
  {
    var key := GenerateStorageKey(uri);
    assert key[|KeyPrefix|..] == Sanitize(uri);
    var back := GetUriFromStorageKey(key);
    assert back == Unsanitize(Sanitize(uri));
    forall i | 0 <= i < |uri|
      ensures back[i] == uri[i] <==> IsKeySafe(uri[i])
    {
    }
    if forall c | c in uri :: IsKeySafe(c) {
      forall i | 0 <= i < |uri| ensures back[i] == uri[i] {
        assert uri[i] in uri;
      }
    } else {
      var c :| c in uri && !IsKeySafe(c);
      var i :| 0 <= i < |uri| && uri[i] == c;
      assert back[i] != uri[i];
    }
  }

  /** Decoding a generated key and encoding the result again gives the same key,
      so looking a photo up by its decoded URI finds the stored record. */
  lemma KeyOfDecodedKey(uri: string)
    ensures GenerateStorageKey(GetUriFromStorageKey(GenerateStorageKey(uri))) == GenerateStorageKey(uri)
  {
    var key := GenerateStorageKey(uri);
    assert key[|KeyPrefix|..] == Sanitize(uri);
    var back := GetUriFromStorageKey(key);
    assert Sanitize(back) == Sanitize(uri);
  }

  /** Different URIs can share one key: the encoding is not injective. */
  lemma KeysCollide()
    ensures exists u, v :: u != v && GenerateStorageKey(u) == GenerateStorageKey(v)
  {
    var u, v := "a:b", "a/b";
    assert u[1] != v[1];
    assert Sanitize(u) == Sanitize(v);
    assert GenerateStorageKey(u) == GenerateStorageKey(v);
  }
}
