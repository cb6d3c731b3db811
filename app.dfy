/** The photo-gallery logic of App.js around the index: the two photo
    handlers, loading stored photos at start-up, reconciling the store with
    the device's photo list, and the search box. */
module Gallery {
  import opened Text
  import opened StorageKeys
  import opened PrefixIndex

  datatype Option<T> = None | Some(value: T)

  /** What `JSON.parse` makes of a value read back from the store. */
  datatype Stored =
    | Record(uri: string, ocrData: seq<TextBlock>)  // `{uri, ocrData}`, as handleNewPhoto writes it
    | UriLessRecord(ocrData: seq<TextBlock>)        // an `ocrData` array without a string `uri`
    | BlockArray(blocks: seq<TextBlock>)            // a bare array of text blocks
    | OtherJson                                     // any other JSON value
    | Unreadable                                    // an empty value, or text JSON.parse rejects

  /** What `RNTextDetector.detectFromUri` gives for one photo: a rejected
      promise, or a result that may be null. */
  datatype Detection = DetectFailed | Detected(result: Option<seq<TextBlock>>)

  /** How a call to handleNewPhoto ends: its promise rejects, or it returns. */
  datatype Outcome = Threw | Returned(success: bool)

  /** The key initializeApp writes; its value 'This is a test value.' is not JSON. */
  const TestKey: string := "test"

  /** The blocks handlePhotoWithExistingData takes from a parsed value: its
      `ocrData` array, or the value itself when that is an array. */
  function AcceptedBlocks(parsed: Stored): (r: Option<seq<TextBlock>>)
    ensures r.Some? <==> parsed.Record? || parsed.UriLessRecord? || parsed.BlockArray?
    ensures parsed.Record? || parsed.UriLessRecord? ==> r == Some(parsed.ocrData)
    ensures parsed.BlockArray? ==> r == Some(parsed.blocks)
  {
    match parsed
    case Record(_, blocks) => Some(blocks)
    case UriLessRecord(blocks) => Some(blocks)
    case BlockArray(blocks) => Some(blocks)
    case _ => None
  }

  /** The blocks handleNewPhoto records: the OCR result when it is a non-empty array. */
  function Recognized(d: Detection): (r: Option<seq<TextBlock>>)
    ensures r.Some? <==> d.Detected? && d.result.Some? && |d.result.value| > 0
    ensures r.Some? ==> r == d.result && |r.value| > 0
  {
    if d.Detected? && d.result.Some? && |d.result.value| > 0 then d.result else None
  }

  /** The index covers the recognised text: every word of every photo's blocks
      is in the trie under that photo, and every URI in the trie has text. */
  ghost predicate Indexed(ocrData: map<string, seq<TextBlock>>, contents: set<(string, string)>)
  {
    && (forall u {:trigger ocrData[u]} | u in ocrData :: Tagged(BlocksWords(ocrData[u]), u) <= contents)
    && (forall e {:trigger e in contents} | e in contents :: e.1 in ocrData)
  }

  /** Recording a photo's blocks and inserting their words under it keeps the
      index covering the text. */
  lemma IndexedAfterRecord(ocrData: map<string, seq<TextBlock>>, contents: set<(string, string)>,
                           uri: string, blocks: seq<TextBlock>)
    requires Indexed(ocrData, contents)
    ensures Indexed(ocrData[uri := blocks], contents + Tagged(BlocksWords(blocks), uri))
  {
    var ocrData', contents' := ocrData[uri := blocks], contents + Tagged(BlocksWords(blocks), uri);
    forall u | u in ocrData' ensures Tagged(BlocksWords(ocrData'[u]), u) <= contents' {
      if u != uri {
        assert ocrData'[u] == ocrData[u];
      }
    }
  }

  /** Every URI the index answers for has recognised text, and a photo whose
      text holds a word starting with `prefix` is among the answers. */
  lemma IndexedLookup(ocrData: map<string, seq<TextBlock>>, contents: set<(string, string)>, prefix: string,
                      u: string, w: string)
    requires Indexed(ocrData, contents)
    ensures u in Lookup(contents, prefix) ==> u in ocrData
    ensures u in ocrData && w in BlocksWords(ocrData[u]) && prefix <= w ==> u in Lookup(contents, prefix)
  {
    if u in Lookup(contents, prefix) {
      var e :| e in contents && prefix <= e.0 && e.1 == u;
    }
    if u in ocrData && w in BlocksWords(ocrData[u]) && prefix <= w {
      assert (w, u) in Tagged(BlocksWords(ocrData[u]), u);
    }
  }

  // ----- effects of a run of handler calls -----

  /** A photo URI with the blocks a handler records for it. */
  type Rec = (string, seq<TextBlock>)

  /** `ocrData` after a handler has recorded each photo in turn. */
  function WithOcr(ocrData: map<string, seq<TextBlock>>, recs: seq<Rec>): map<string, seq<TextBlock>>
  {
    if recs == [] then ocrData
    else
      var p := recs[|recs| - 1];
      WithOcr(ocrData, recs[..|recs| - 1])[p.0 := p.1]
  }

  /** The trie's pairs after a handler has indexed each photo in turn. */
  function WithPairs(contents: set<(string, string)>, recs: seq<Rec>): set<(string, string)>
  {
    if recs == [] then contents
    else
      var p := recs[|recs| - 1];
      WithPairs(contents, recs[..|recs| - 1]) + Tagged(BlocksWords(p.1), p.0)
  }

  /** `photos` after handlePhotoWithExistingData has seen each photo in turn:
      a URI not shown yet is appended. */
  function WithPhotos(photos: seq<string>, recs: seq<Rec>): seq<string>
  {
    if recs == [] then photos
    else
      var p := WithPhotos(photos, recs[..|recs| - 1]);
      var u := recs[|recs| - 1].0;
      if u in p then p else p + [u]
  }

  /** The store after handleNewPhoto has written each photo's record in turn. */
  function WithRecords(store: map<string, Stored>, recs: seq<Rec>): map<string, Stored>
  {
    if recs == [] then store
    else
      var p := recs[|recs| - 1];
      WithRecords(store, recs[..|recs| - 1])[GenerateStorageKey(p.0) := Record(p.0, p.1)]
  }

  lemma FoldStep(recs: seq<Rec>, x: Rec, ocrData: map<string, seq<TextBlock>>, contents: set<(string, string)>,
                 photos: seq<string>, store: map<string, Stored>)
    ensures WithOcr(ocrData, recs + [x]) == WithOcr(ocrData, recs)[x.0 := x.1]
    ensures WithPairs(contents, recs + [x]) == WithPairs(contents, recs) + Tagged(BlocksWords(x.1), x.0)
    ensures WithPhotos(photos, recs + [x]) == if x.0 in WithPhotos(photos, recs) then WithPhotos(photos, recs)
                                              else WithPhotos(photos, recs) + [x.0]
    ensures WithRecords(store, recs + [x]) == WithRecords(store, recs)[GenerateStorageKey(x.0) := Record(x.0, x.1)]
  {
    assert (recs + [x])[..|recs|] == recs;
  }

  /** Recording a run of photos keeps the index covering the text. */
  lemma {:induction false} IndexedAfterRecords(ocrData: map<string, seq<TextBlock>>, contents: set<(string, string)>,
                                               recs: seq<Rec>)
    requires Indexed(ocrData, contents)
    ensures Indexed(WithOcr(ocrData, recs), WithPairs(contents, recs))
  {
    if recs != [] {
      var p := recs[|recs| - 1];
      IndexedAfterRecords(ocrData, contents, recs[..|recs| - 1]);
      IndexedAfterRecord(WithOcr(ocrData, recs[..|recs| - 1]), WithPairs(contents, recs[..|recs| - 1]), p.0, p.1);
    }
  }

  /** A photo recorded by a run has an entry in `ocrData`, and nothing else is added. */
  lemma {:induction false} WithOcrKeys(ocrData: map<string, seq<TextBlock>>, recs: seq<Rec>, u: string)
    ensures u in WithOcr(ocrData, recs) <==> u in ocrData || exists p | p in recs :: p.0 == u
  {
    if recs != [] {
      var init, p := recs[..|recs| - 1], recs[|recs| - 1];
      WithOcrKeys(ocrData, init, u);
      assert recs == init + [p];
      if exists q | q in recs :: q.0 == u {
        var q :| q in recs && q.0 == u;
        if q != p { assert q in init; }
      }
    }
  }

  /** handlePhotoWithExistingData only appends: the photos shown before stay
      in place, every recorded photo is shown, and no photo is shown twice. */
  lemma {:induction false} WithPhotosShape(photos: seq<string>, recs: seq<Rec>)
    ensures photos <= WithPhotos(photos, recs)
    ensures forall u :: u in WithPhotos(photos, recs) <==> u in photos || exists p | p in recs :: p.0 == u
    ensures NoDuplicates(photos) ==> NoDuplicates(WithPhotos(photos, recs))
  {
    if recs != [] {
      var init, x := recs[..|recs| - 1], recs[|recs| - 1];
      var p := WithPhotos(photos, init);
      WithPhotosShape(photos, init);
      assert recs == init + [x];
      forall u ensures u in WithPhotos(photos, recs) <==> u in photos || exists q | q in recs :: q.0 == u {
        if exists q | q in recs :: q.0 == u {
          var q :| q in recs && q.0 == u;
          if q != x { assert q in init; }
        }
        if exists q | q in init :: q.0 == u {
          var q :| q in init && q.0 == u;
          assert q in recs;
        }
      }
      if NoDuplicates(photos) && x.0 !in p {
        ElemsAppend(p, [x.0]);
        NoDuplicatesAppend(p, [x.0]);
      }
    }
  }

  /** What the store holds under one key after a run of writes: a record
      written under that key, or what it held before. */
  lemma {:induction false} WithRecordsFrame(store: map<string, Stored>, recs: seq<Rec>, k: string)
    ensures (forall p | p in recs :: GenerateStorageKey(p.0) != k) ==>
              (k in WithRecords(store, recs) <==> k in store) &&
              (k in store ==> WithRecords(store, recs)[k] == store[k])
    ensures (exists p | p in recs :: GenerateStorageKey(p.0) == k) ==>
              k in WithRecords(store, recs) && WithRecords(store, recs)[k].Record? &&
              GenerateStorageKey(WithRecords(store, recs)[k].uri) == k
  {
    if recs != [] {
      var init, x := recs[..|recs| - 1], recs[|recs| - 1];
      WithRecordsFrame(store, init, k);
      assert recs == init + [x];
      if GenerateStorageKey(x.0) != k && exists p | p in recs :: GenerateStorageKey(p.0) == k {
        var p :| p in recs && GenerateStorageKey(p.0) == k;
        assert p in init;
      }
      if forall p | p in recs :: GenerateStorageKey(p.0) != k {
        assert forall p | p in init :: p in recs;
      }
    }
  }

  // ----- loadStoredPhotos -----

  /** The URIs loadStoredPhotos visits: every stored key decoded, 'test' left out. */
  function StoredPhotoUris(keys: set<string>): (r: set<string>)
    ensures TestKey !in r
    ensures forall u | u in r :: exists k | k in keys :: GetUriFromStorageKey(k) == u
    ensures forall u | GenerateStorageKey(u) in keys && u != TestKey && forall c | c in u :: IsKeySafe(c) :: u in r
  {
    forall u | GenerateStorageKey(u) in keys && u != TestKey && forall c | c in u :: IsKeySafe(c)
      ensures GetUriFromStorageKey(GenerateStorageKey(u)) == u
    {
      RoundTrip(u);
    }
    set k | k in keys && GetUriFromStorageKey(k) != TestKey :: GetUriFromStorageKey(k)
  }

  /** The photos loadStoredPhotos hands on, in key order, with the blocks it
      reads back under each one's key. */
  function LoadedRecords(store: map<string, Stored>, keys: seq<string>): (r: seq<Rec>)
    ensures |r| <= |keys|
    ensures forall p | p in r ::
              p.0 != TestKey && GenerateStorageKey(p.0) in store && AcceptedBlocks(store[GenerateStorageKey(p.0)]) == Some(p.1)
  {
    if keys == [] then []
    else
      var init := LoadedRecords(store, keys[..|keys| - 1]);
      var uri := GetUriFromStorageKey(keys[|keys| - 1]);
      var key := GenerateStorageKey(uri);
      if uri != TestKey && key in store && AcceptedBlocks(store[key]).Some? then
        init + [(uri, AcceptedBlocks(store[key]).value)]
      else init
  }

  /** The same, as a map: what loadStoredPhotos records for each URI it
      visits, whatever order the keys come in. */
  function LoadedData(store: map<string, Stored>, keys: set<string>): (r: map<string, seq<TextBlock>>)
    ensures TestKey !in r
    ensures forall u | u in r :: u in StoredPhotoUris(keys) && GenerateStorageKey(u) in store
    ensures forall u | u in StoredPhotoUris(keys) ::
              u in r <==> GenerateStorageKey(u) in store && AcceptedBlocks(store[GenerateStorageKey(u)]).Some?
  {
    ReadBack(store, StoredPhotoUris(keys))
  }

  /** The blocks read back under the key of each of `uris`, for those whose
      stored value is accepted. */
  function ReadBack(store: map<string, Stored>, uris: set<string>): map<string, seq<TextBlock>>
  {
    map u | u in uris && GenerateStorageKey(u) in store && AcceptedBlocks(store[GenerateStorageKey(u)]).Some?
      :: AcceptedBlocks(store[GenerateStorageKey(u)]).value
  }

  lemma ReadBackStep(store: map<string, Stored>, uris: set<string>, u: string)
    ensures var key := GenerateStorageKey(u);
            ReadBack(store, uris + {u}) ==
              if key in store && AcceptedBlocks(store[key]).Some? then
                ReadBack(store, uris)[u := AcceptedBlocks(store[key]).value]
              else ReadBack(store, uris)
  {
  }

  /** The (word, uri) pairs the handler inserts for a map of recorded blocks. */
  function LoadedPairs(loaded: map<string, seq<TextBlock>>): (r: set<(string, string)>)
    ensures forall e :: e in r <==> e.1 in loaded && e.0 in BlocksWords(loaded[e.1])
  {
    set u, w | u in loaded && w in BlocksWords(loaded[u]) :: (w, u)
  }

  lemma LoadedDataStep(store: map<string, Stored>, keys: set<string>, k: string)
    ensures var uri := GetUriFromStorageKey(k);
            var key := GenerateStorageKey(uri);
            LoadedData(store, keys + {k}) ==
              if uri != TestKey && key in store && AcceptedBlocks(store[key]).Some? then
                LoadedData(store, keys)[uri := AcceptedBlocks(store[key]).value]
              else LoadedData(store, keys)
  {
    var uri := GetUriFromStorageKey(k);
    if uri != TestKey {
      assert StoredPhotoUris(keys + {k}) == StoredPhotoUris(keys) + {uri};
      ReadBackStep(store, StoredPhotoUris(keys), uri);
    } else {
      assert StoredPhotoUris(keys + {k}) == StoredPhotoUris(keys);
    }
  }

  lemma LoadedRecordsStep(store: map<string, Stored>, init: seq<string>, k: string)
    ensures var uri := GetUriFromStorageKey(k);
            var key := GenerateStorageKey(uri);
            LoadedRecords(store, init + [k]) ==
              if uri != TestKey && key in store && AcceptedBlocks(store[key]).Some? then
                LoadedRecords(store, init) + [(uri, AcceptedBlocks(store[key]).value)]
              else LoadedRecords(store, init)
  {
    assert (init + [k])[..|init|] == init;
  }

  lemma MergeUpdate(m: map<string, seq<TextBlock>>, n: map<string, seq<TextBlock>>, u: string, v: seq<TextBlock>)
    ensures (m + n)[u := v] == m + n[u := v]
  {
  }

  lemma SplitLast(keys: seq<string>)
    requires keys != []
    ensures keys == keys[..|keys| - 1] + [keys[|keys| - 1]]
    ensures Elems(keys) == Elems(keys[..|keys| - 1]) + {keys[|keys| - 1]}
  {
    var init, k := keys[..|keys| - 1], keys[|keys| - 1];
    assert keys == init + [k];
    ElemsAppend(init, [k]);
    assert Elems([k]) == {k};
  }

  lemma LoadedOcrStep(ocrData: map<string, seq<TextBlock>>, store: map<string, Stored>, init: seq<string>, k: string)
    requires WithOcr(ocrData, LoadedRecords(store, init)) == ocrData + LoadedData(store, Elems(init))
    ensures WithOcr(ocrData, LoadedRecords(store, init + [k])) == ocrData + LoadedData(store, Elems(init) + {k})
  {
    LoadedRecordsStep(store, init, k);
    LoadedDataStep(store, Elems(init), k);
    var uri := GetUriFromStorageKey(k);
    var key := GenerateStorageKey(uri);
    if uri != TestKey && key in store && AcceptedBlocks(store[key]).Some? {
      var blocks := AcceptedBlocks(store[key]).value;
      FoldStep(LoadedRecords(store, init), (uri, blocks), ocrData, {}, [], store);
      MergeUpdate(ocrData, LoadedData(store, Elems(init)), uri, blocks);
    }
  }

  /** The order loadStoredPhotos visits the keys in does not change what it
      records: each visited URI gets the blocks stored under its key. */
  lemma {:induction false} LoadedInAnyOrder(ocrData: map<string, seq<TextBlock>>, store: map<string, Stored>,
                                            keys: seq<string>)
    ensures WithOcr(ocrData, LoadedRecords(store, keys)) == ocrData + LoadedData(store, Elems(keys))
  {
    if keys == [] {
      assert LoadedData(store, Elems(keys)) == map[];
    } else {
      var init, k := keys[..|keys| - 1], keys[|keys| - 1];
      SplitLast(keys);
      LoadedInAnyOrder(ocrData, store, init);
      LoadedOcrStep(ocrData, store, init, k);
    }
  }

  lemma LoadedPairsUpdate(loaded: map<string, seq<TextBlock>>, uri: string, blocks: seq<TextBlock>)
    requires uri in loaded ==> loaded[uri] == blocks
    ensures LoadedPairs(loaded[uri := blocks]) == LoadedPairs(loaded) + Tagged(BlocksWords(blocks), uri)
  {
  }

  lemma UnionShift<T>(w: set<T>, c: set<T>, l: set<T>, t: set<T>, l2: set<T>)
    requires w == c + l && l2 == l + t
    ensures w + t == c + l2
  {
  }

  lemma LoadedPairsStep(contents: set<(string, string)>, store: map<string, Stored>, init: seq<string>, k: string)
    requires WithPairs(contents, LoadedRecords(store, init)) == contents + LoadedPairs(LoadedData(store, Elems(init)))
    ensures WithPairs(contents, LoadedRecords(store, init + [k])) == contents + LoadedPairs(LoadedData(store, Elems(init) + {k}))
  {
    LoadedRecordsStep(store, init, k);
    LoadedDataStep(store, Elems(init), k);
    var recs, loaded := LoadedRecords(store, init), LoadedData(store, Elems(init));
    var uri := GetUriFromStorageKey(k);
    var key := GenerateStorageKey(uri);
    if uri != TestKey && key in store && AcceptedBlocks(store[key]).Some? {
      var blocks := AcceptedBlocks(store[key]).value;
      assert LoadedRecords(store, init + [k]) == recs + [(uri, blocks)];
      assert LoadedData(store, Elems(init) + {k}) == loaded[uri := blocks];
      FoldStep(recs, (uri, blocks), map[], contents, [], store);
      assert uri in loaded ==> loaded[uri] == blocks;
      LoadedPairsUpdate(loaded, uri, blocks);
      UnionShift(WithPairs(contents, recs), contents, LoadedPairs(loaded), Tagged(BlocksWords(blocks), uri),
                 LoadedPairs(loaded[uri := blocks]));
    } else {
      assert LoadedRecords(store, init + [k]) == recs;
      assert LoadedData(store, Elems(init) + {k}) == loaded;
    }
  }

  /** Likewise for the pairs inserted into the trie. */
  lemma {:induction false} LoadedPairsInAnyOrder(contents: set<(string, string)>, store: map<string, Stored>,
                                                 keys: seq<string>)
    ensures WithPairs(contents, LoadedRecords(store, keys)) == contents + LoadedPairs(LoadedData(store, Elems(keys)))
  {
    if keys == [] {
      assert LoadedData(store, Elems(keys)) == map[];
    } else {
      var init, k := keys[..|keys| - 1], keys[|keys| - 1];
      SplitLast(keys);
      LoadedPairsInAnyOrder(contents, store, init);
      LoadedPairsStep(contents, store, init, k);
    }
  }

  /** Accepted blocks stored under the key of `uri`, such as the record
      handleNewPhoto writes for it, come back at start-up under the URI the key
      decodes to, which is `uri` itself only for key-safe URIs. Any `uri` field
      of the stored value plays no part. */
  lemma RecordLoadedUnderDecodedUri(store: map<string, Stored>, uri: string, blocks: seq<TextBlock>)
    requires GenerateStorageKey(uri) in store && AcceptedBlocks(store[GenerateStorageKey(uri)]) == Some(blocks)
    requires GetUriFromStorageKey(GenerateStorageKey(uri)) != TestKey
    ensures var back := GetUriFromStorageKey(GenerateStorageKey(uri));
            back in LoadedData(store, store.Keys) && LoadedData(store, store.Keys)[back] == blocks
  {
    var key := GenerateStorageKey(uri);
    var back := GetUriFromStorageKey(key);
    KeyOfDecodedKey(uri);
    assert back in StoredPhotoUris(store.Keys);
  }

  /** `{"ocrData":[{"text":"hi"}]}`, with no `uri`, stored under "img_x" is
      loaded for "x". */
  lemma UriLessRecordLoaded(store: map<string, Stored>)
    requires store == map["img_x" := UriLessRecord([TextBlock("hi")])]
    ensures "x" in LoadedData(store, store.Keys) && LoadedData(store, store.Keys)["x"] == [TextBlock("hi")]
  {
    assert GenerateStorageKey("x") == "img_x";
    RecordLoadedUnderDecodedUri(store, "x", [TextBlock("hi")]);
  }

  // ----- fetchPhotos -----

  /** `[...new Set(s)]`: each element once, where it first occurs. */
  function Dedup(s: seq<string>): (r: seq<string>)
    ensures NoDuplicates(r) && Elems(r) == Elems(s)
  {
    if s == [] then []
    else
      var init, last := s[..|s| - 1], s[|s| - 1];
      var d := Dedup(init);
      ElemsAppend(init, [last]);
      assert s == init + [last];
      assert Elems([last]) == {last};
      if last in d then
        assert last in Elems(d);
        d
      else
        ElemsAppend(d, [last]);
        NoDuplicatesAppend(d, [last]);
        d + [last]
  }

  /** `s.filter(x => !drop.includes(x))`. */
  function Without(s: seq<string>, drop: set<string>): (r: seq<string>)
    ensures Elems(r) == Elems(s) - drop
    ensures NoDuplicates(s) ==> NoDuplicates(r)
  {
    if s == [] then []
    else
      var head := if s[0] in drop then [] else [s[0]];
      var rest := Without(s[1..], drop);
      assert s == [s[0]] + s[1..];
      ElemsAppend([s[0]], s[1..]);
      ElemsAppend(head, rest);
      assert Elems([s[0]]) == {s[0]};
      assert NoDuplicates(s) ==> NoDuplicates(s[1..]) && s[0] !in Elems(s[1..]) by {
        if NoDuplicates(s) {
          forall i, j | 0 <= i < j < |s[1..]| ensures s[1..][i] != s[1..][j] {
            assert s[1..][i] == s[i + 1] && s[1..][j] == s[j + 1];
          }
        }
      }
      assert NoDuplicates(s) ==> NoDuplicates(head + rest) by {
        if NoDuplicates(s) { NoDuplicatesAppend(head, rest); }
      }
      head + rest
  }

  /** `existingPhotos`: the stored keys, in order, whose decoded URI is live. */
  function ExistingKeys(keys: seq<string>, live: set<string>): (r: seq<string>)
    ensures forall k :: k in r <==> k in keys && GetUriFromStorageKey(k) in live
  {
    if keys == [] then []
    else (if GetUriFromStorageKey(keys[0]) in live then [keys[0]] else []) + ExistingKeys(keys[1..], live)
  }

  /** `obsoleteUris`: the stored keys, in order, whose decoded URI is not live. */
  function ObsoleteKeys(keys: seq<string>, live: set<string>): (r: seq<string>)
    ensures forall k :: k in r <==> k in keys && GetUriFromStorageKey(k) !in live
  {
    if keys == [] then []
    else (if GetUriFromStorageKey(keys[0]) !in live then [keys[0]] else []) + ObsoleteKeys(keys[1..], live)
  }

  /** The existing and the obsolete keys split the stored keys in two, by
      whether the decoded key is a live URI. */
  lemma KeysPartition(keys: seq<string>, live: set<string>)
    ensures Elems(ExistingKeys(keys, live)) + Elems(ObsoleteKeys(keys, live)) == Elems(keys)
    ensures Elems(ExistingKeys(keys, live)) !! Elems(ObsoleteKeys(keys, live))
  {
  }

  /** The 'test' key initializeApp writes is obsolete whenever no live photo
      has the URI 'test'. */
  lemma TestKeyObsolete(keys: seq<string>, live: set<string>)
    requires TestKey in keys && TestKey !in live
    ensures TestKey in ObsoleteKeys(keys, live) && TestKey !in ExistingKeys(keys, live)
  {
    assert TestKey[1] != KeyPrefix[1];
  }

  /** The records handed to handlePhotoWithExistingData when reading each of
      `keys` in turn and keeping the values that parse to a record. */
  function RecordsUnder(store: map<string, Stored>, keys: seq<string>): (r: seq<Rec>)
    ensures |r| <= |keys|
    ensures forall p | p in r :: Record(p.0, p.1) in store.Values
  {
    if keys == [] then []
    else
      var init := RecordsUnder(store, keys[..|keys| - 1]);
      var key := keys[|keys| - 1];
      if key in store && store[key].Record? then
        assert store[key] == Record(store[key].uri, store[key].ocrData);
        init + [(store[key].uri, store[key].ocrData)]
      else init
  }

  /** Every record stored under one of `keys` is handed on. */
  lemma {:induction false} RecordsUnderComplete(store: map<string, Stored>, keys: seq<string>, i: nat)
    requires i < |keys| && keys[i] in store && store[keys[i]].Record?
    ensures (store[keys[i]].uri, store[keys[i]].ocrData) in RecordsUnder(store, keys)
    decreases |keys|
  {
    var init := keys[..|keys| - 1];
    if i < |keys| - 1 {
      assert init[i] == keys[i];
      RecordsUnderComplete(store, init, i);
    }
  }

  /** The keys step 1 of fetchPhotos reads as written: each existing key run
      through generateStorageKey again. */
  function Regenerated(keys: seq<string>): (r: seq<string>)
    ensures |r| == |keys| && forall i | 0 <= i < |keys| :: r[i] == GenerateStorageKey(keys[i])
    ensures forall i | 0 <= i < |keys| :: KeyPrefix <= keys[i] ==> KeyPrefix + KeyPrefix <= r[i]
  {
    forall i | 0 <= i < |keys| && KeyPrefix <= keys[i] ensures KeyPrefix + KeyPrefix <= GenerateStorageKey(keys[i]) {
      var k, key := keys[i], GenerateStorageKey(keys[i]);
      forall j | 0 <= j < |KeyPrefix| ensures key[|KeyPrefix| + j] == k[j] {
        assert IsWordChar(k[j]);
      }
      assert (KeyPrefix + KeyPrefix)[..|KeyPrefix|] == KeyPrefix;
    }
    seq(|keys|, i requires 0 <= i < |keys| => GenerateStorageKey(keys[i]))
  }

  /** As written, step 1 reads nothing back when every key it looks at was
      made by generateStorageKey and no stored key starts with "img_img_". */
  lemma StepOneReadsNothing(store: map<string, Stored>, existing: seq<string>)
    requires forall k | k in existing :: KeyPrefix <= k
    requires forall k | k in store :: !(KeyPrefix + KeyPrefix <= k)
    ensures RecordsUnder(store, Regenerated(existing)) == []
  {
    var keys := Regenerated(existing);
    forall i | 0 <= i < |keys| ensures keys[i] !in store {
      assert existing[i] in existing;
    }
    NothingUnder(store, keys);
  }

  lemma {:induction false} NothingUnder(store: map<string, Stored>, keys: seq<string>)
    requires forall i | 0 <= i < |keys| :: keys[i] !in store
    ensures RecordsUnder(store, keys) == []
  {
    if keys != [] {
      NothingUnder(store, keys[..|keys| - 1]);
    }
  }

  /** `newPhotoUris` as written: the live URIs that are not themselves an
      existing key. */
  function NewPhotoUris(edges: seq<string>, existing: seq<string>): (r: seq<string>)
    ensures NoDuplicates(r)
    ensures forall u :: u in r <==> u in edges && u !in existing
  {
    var r := Without(Dedup(edges), Elems(existing));
    assert forall u :: u in r <==> u in Elems(r);
    r
  }

  /** As written, every live photo is sent to OCR again when no live URI looks
      like a storage key, whatever the store holds for it. */
  lemma StepTwoRedoesAll(edges: seq<string>, keys: seq<string>)
    requires forall k | k in keys :: KeyPrefix <= k || k == TestKey
    requires forall u | u in edges :: !(KeyPrefix <= u) && u != TestKey
    ensures Elems(NewPhotoUris(edges, ExistingKeys(keys, Elems(edges)))) == Elems(edges)
  {
  }

  /** `s.filter(u => !existing.includes(generateStorageKey(u)))`. */
  function WithoutStored(s: seq<string>, existing: seq<string>): (r: seq<string>)
    ensures forall u :: u in r <==> u in s && GenerateStorageKey(u) !in existing
  {
    if s == [] then []
    else (if GenerateStorageKey(s[0]) in existing then [] else [s[0]]) + WithoutStored(s[1..], existing)
  }

  /** `newPhotoUris` as evidently intended: the live URIs whose key is not
      among the existing keys. */
  function NewPhotoUrisIntended(edges: seq<string>, existing: seq<string>): (r: seq<string>)
    ensures forall u :: u in r <==> u in edges && GenerateStorageKey(u) !in existing
  {
    var r := WithoutStored(Dedup(edges), existing);
    assert forall u :: u in Dedup(edges) <==> u in Elems(Dedup(edges));
    r
  }

  /** The storage keys of the live URIs. */
  function LiveKeys(live: set<string>): set<string>
  {
    set u | u in live :: GenerateStorageKey(u)
  }

  /** `existingPhotos` as evidently intended: the stored keys, in order, that
      are the key of a live URI. */
  function ExistingKeysIntended(keys: seq<string>, live: set<string>): (r: seq<string>)
    ensures forall k :: k in r <==> k in keys && exists u | u in live :: GenerateStorageKey(u) == k
  {
    if keys == [] then []
    else (if keys[0] in LiveKeys(live) then [keys[0]] else []) + ExistingKeysIntended(keys[1..], live)
  }

  /** `obsoleteUris` as evidently intended: the stored keys, in order, that
      are the key of no live URI. */
  function ObsoleteKeysIntended(keys: seq<string>, live: set<string>): (r: seq<string>)
    ensures forall k :: k in r <==> k in keys && forall u | u in live :: GenerateStorageKey(u) != k
  {
    if keys == [] then []
    else (if keys[0] in LiveKeys(live) then [] else [keys[0]]) + ObsoleteKeysIntended(keys[1..], live)
  }

  /** With the intended classification the key of a live photo is never
      obsolete, and it is existing exactly when it is stored; the existing
      and the obsolete keys split the stored keys in two. */
  lemma IntendedKeepsLiveKeys(keys: seq<string>, live: set<string>, u: string)
    requires u in live
    ensures GenerateStorageKey(u) !in ObsoleteKeysIntended(keys, live)
    ensures GenerateStorageKey(u) in ExistingKeysIntended(keys, live) <==> GenerateStorageKey(u) in keys
    ensures Elems(ExistingKeysIntended(keys, live)) + Elems(ObsoleteKeysIntended(keys, live)) == Elems(keys)
    ensures Elems(ExistingKeysIntended(keys, live)) !! Elems(ObsoleteKeysIntended(keys, live))
  {
  }

  /** With the intended classification a stored 'test' key is always
      obsolete: no URI encodes to it. */
  lemma TestKeyObsoleteIntended(keys: seq<string>, live: set<string>)
    requires TestKey in keys
    ensures TestKey in ObsoleteKeysIntended(keys, live)
  {
    forall u | u in live ensures GenerateStorageKey(u) != TestKey {
      assert GenerateStorageKey(u)[1] == KeyPrefix[1];
    }
  }

  /** With the intended classification and comparison a live photo is sent
      to OCR exactly when nothing is stored under its key, whether or not
      its URI is key-safe. */
  lemma IntendedSkipsStored(edges: seq<string>, keys: seq<string>, u: string)
    ensures u in NewPhotoUrisIntended(edges, ExistingKeysIntended(keys, Elems(edges)))
            <==> u in edges && GenerateStorageKey(u) !in keys
  {
    if u in edges {
      assert u in Elems(edges);
    }
  }

  /** With the intended reads, step 1 hands on the record stored under each
      existing key. */
  lemma IntendedReadsStored(store: map<string, Stored>, existing: seq<string>, k: string)
    requires k in existing && k in store && store[k].Record?
    ensures (store[k].uri, store[k].ocrData) in RecordsUnder(store, existing)
  {
    RecordsUnderHas(store, existing, k);
  }

  lemma {:induction false} RecordsUnderHas(store: map<string, Stored>, keys: seq<string>, k: string)
    requires k in keys && k in store && store[k].Record?
    ensures (store[k].uri, store[k].ocrData) in RecordsUnder(store, keys)
  {
    var init, last := keys[..|keys| - 1], keys[|keys| - 1];
    assert keys == init + [last];
    if last != k {
      assert k in init;
      RecordsUnderHas(store, init, k);
    }
  }

  /** The photo "a/b" is stored under "img_a_b", which decodes back to it. */
  lemma ExampleKey()
    ensures GenerateStorageKey("a/b") == "img_a_b" && GetUriFromStorageKey("img_a_b") == "a/b"
    ensures ExistingKeys(["img_a_b"], {"a/b"}) == ["img_a_b"]
  {
    assert Sanitize("a/b") == "a_b";
    assert "img_a_b"[|KeyPrefix|..] == "a_b";
    assert Unsanitize("a_b") == "a/b";
    assert ExistingKeys(["img_a_b"], {"a/b"}) == ["img_a_b"] + ExistingKeys([], {"a/b"});
  }

  /** The as-written half of StoredPhotoReprocessed. */
  lemma ExampleAsWritten(store: map<string, Stored>)
    requires store == map["img_a_b" := Record("a/b", [TextBlock("hi")])]
    ensures RecordsUnder(store, Regenerated(["img_a_b"])) == []
    ensures NewPhotoUris(["a/b"], ["img_a_b"]) == ["a/b"]
  {
    assert GenerateStorageKey("img_a_b") != "img_a_b";
    assert Regenerated(["img_a_b"]) == [GenerateStorageKey("img_a_b")];
    assert Regenerated(["img_a_b"])[..0] == [];
    assert Dedup(["a/b"]) == ["a/b"];
    assert Without(["a/b"], Elems(["img_a_b"])) == ["a/b"] + Without([], Elems(["img_a_b"]));
  }

  /** The intended half of StoredPhotoReprocessed. */
  lemma ExampleIntended(store: map<string, Stored>)
    requires store == map["img_a_b" := Record("a/b", [TextBlock("hi")])]
    ensures RecordsUnder(store, ["img_a_b"]) == [("a/b", [TextBlock("hi")])]
    ensures NewPhotoUrisIntended(["a/b"], ["img_a_b"]) == []
  {
    ExampleReadsRecord(store);
    ExampleSkipsOcr();
  }

  lemma ExampleReadsRecord(store: map<string, Stored>)
    requires store == map["img_a_b" := Record("a/b", [TextBlock("hi")])]
    ensures RecordsUnder(store, ["img_a_b"]) == [("a/b", [TextBlock("hi")])]
  {
    assert ["img_a_b"][..0] == [];
  }

  lemma ExampleSkipsOcr()
    ensures NewPhotoUrisIntended(["a/b"], ["img_a_b"]) == []
  {
    ExampleKey();
    assert Dedup(["a/b"]) == ["a/b"];
    assert WithoutStored(["a/b"], ["img_a_b"]) == [] + WithoutStored([], ["img_a_b"]);
  }

  /** As written, a live photo whose record is stored under its own key is
      sent to OCR again, and step 1 reads nothing for it; as intended, its
      record is read and it is not sent to OCR. */
  lemma StoredPhotoReprocessed()
    ensures var edges := ["a/b"];
            var store := map["img_a_b" := Record("a/b", [TextBlock("hi")])];
            var existing := ExistingKeys(["img_a_b"], Elems(edges));
            && existing == ["img_a_b"]
            && RecordsUnder(store, Regenerated(existing)) == []
            && NewPhotoUris(edges, existing) == ["a/b"]
            && RecordsUnder(store, existing) == [("a/b", [TextBlock("hi")])]
            && NewPhotoUrisIntended(edges, existing) == []
  {
    var store := map["img_a_b" := Record("a/b", [TextBlock("hi")])];
    assert Elems(["a/b"]) == {"a/b"};
    ExampleKey();
    ExampleAsWritten(store);
    ExampleIntended(store);
  }

  /** The index in `uris` of the first photo whose OCR call rejects, or |uris|. */
  function FirstFailure(uris: seq<string>, detect: string -> Detection): (n: nat)
    ensures n <= |uris|
    ensures forall i | 0 <= i < n :: !detect(uris[i]).DetectFailed?
    ensures n < |uris| ==> detect(uris[n]).DetectFailed?
  {
    if uris == [] || detect(uris[0]).DetectFailed? then 0 else 1 + FirstFailure(uris[1..], detect)
  }

  /** The photos handleNewPhoto records, in order, with their blocks. */
  function Successes(uris: seq<string>, detect: string -> Detection): (r: seq<Rec>)
    ensures forall p | p in r :: p.0 in uris && Recognized(detect(p.0)) == Some(p.1)
    ensures forall i | 0 <= i < |uris| && Recognized(detect(uris[i])).Some? ::
              (uris[i], Recognized(detect(uris[i])).value) in r
  {
    if uris == [] then []
    else
      var last := uris[|uris| - 1];
      var init := Successes(uris[..|uris| - 1], detect);
      assert forall p | p in init :: p.0 in uris[..|uris| - 1];
      assert forall i | 0 <= i < |uris| - 1 :: uris[..|uris| - 1][i] == uris[i];
      match Recognized(detect(last))
      case Some(blocks) => init + [(last, blocks)]
      case None => init
  }

  /** After the cleanup no obsolete key is left, and every other key holds
      what it held before unless step 2 wrote a record under it. */
  lemma CleanupOutcome(store: map<string, Stored>, recs: seq<Rec>, obsolete: set<string>, k: string)
    ensures k in obsolete ==> k !in WithRecords(store, recs) - obsolete
    ensures k !in obsolete && (forall p | p in recs :: GenerateStorageKey(p.0) != k) ==>
              (k in WithRecords(store, recs) - obsolete <==> k in store) &&
              (k in store ==> (WithRecords(store, recs) - obsolete)[k] == store[k])
    ensures k !in obsolete && (exists p | p in recs :: GenerateStorageKey(p.0) == k) ==>
              k in WithRecords(store, recs) - obsolete && (WithRecords(store, recs) - obsolete)[k].Record?
  {
    WithRecordsFrame(store, recs, k);
  }

  /** The 'test' key is gone after a cleanup against a photo list without the
      URI 'test': it is obsolete, and no record is ever written under it. */
  lemma TestKeyGone(store: map<string, Stored>, recs: seq<Rec>, keys: seq<string>, live: set<string>)
    requires Elems(keys) == store.Keys && TestKey !in live
    ensures TestKey !in WithRecords(store, recs) - Elems(ObsoleteKeys(keys, live))
  {
    if TestKey in store {
      assert TestKey in keys by { assert TestKey in Elems(keys); }
      TestKeyObsolete(keys, live);
    } else {
      TestKeyNeverWritten(store, recs);
    }
  }

  /** No photo's record is ever written under the 'test' key. */
  lemma TestKeyNeverWritten(store: map<string, Stored>, recs: seq<Rec>)
    ensures TestKey in WithRecords(store, recs) <==> TestKey in store
  {
    forall p | p in recs ensures GenerateStorageKey(p.0) != TestKey {
      assert GenerateStorageKey(p.0)[1] == KeyPrefix[1];
    }
    WithRecordsFrame(store, recs, TestKey);
  }

  /** A word without spaces is inserted as itself. */
  lemma OneWord(word: string, uri: string)
    requires ' ' !in word
    ensures Tagged(SplitOn(word, ' '), uri) == {(word, uri)}
  {
    SplitWithoutSeparator(word, ' ');
  }

  lemma BlocksWordsStep(blocks: seq<TextBlock>, k: nat)
    requires k < |blocks|
    ensures BlocksWords(blocks[..k + 1]) == BlocksWords(blocks[..k]) + BlockWords(blocks[k])
  {
    assert blocks[..k + 1][..k] == blocks[..k];
  }

  /** The inner `forEach`: each word of one block inserted with `uri`. */
  method IndexWords(trie: Trie, words: seq<string>, uri: string)
    requires trie.Valid() && forall w | w in words :: ' ' !in w
    modifies trie, trie.NodeInfo.Keys
    ensures trie.Valid() && fresh(trie.NodeInfo.Keys - old(trie.NodeInfo.Keys))
    ensures trie.Contents == old(trie.Contents) + Tagged(words, uri)
  {
    for j := 0 to |words|
      invariant trie.Valid() && fresh(trie.NodeInfo.Keys - old(trie.NodeInfo.Keys))
      invariant trie.Contents == old(trie.Contents) + Tagged(words[..j], uri)
    {
      ghost var nodesJ := trie.NodeInfo.Keys;
      trie.Insert(words[j], uri);
      assert fresh(trie.NodeInfo.Keys - nodesJ);
      assert fresh(trie.NodeInfo.Keys - old(trie.NodeInfo.Keys));
      OneWord(words[j], uri);
      TaggedStep(words, j, uri);
    }
    assert words[..|words|] == words;
  }

  /** The two nested `forEach` loops of the photo handlers: each block's text
      lower-cased, split on whitespace, and each word inserted with `uri`. */
  method IndexBlocks(trie: Trie, blocks: seq<TextBlock>, uri: string)
    requires trie.Valid()
    modifies trie, trie.NodeInfo.Keys
    ensures trie.Valid() && fresh(trie.NodeInfo.Keys - old(trie.NodeInfo.Keys))
    ensures trie.Contents == old(trie.Contents) + Tagged(BlocksWords(blocks), uri)
  {
    for k := 0 to |blocks|
      invariant trie.Valid() && fresh(trie.NodeInfo.Keys - old(trie.NodeInfo.Keys))
      invariant trie.Contents == old(trie.Contents) + Tagged(BlocksWords(blocks[..k]), uri)
    {
      ghost var nodesK := trie.NodeInfo.Keys;
      IndexWords(trie, BlockWords(blocks[k]), uri);
      assert fresh(trie.NodeInfo.Keys - nodesK);
      assert fresh(trie.NodeInfo.Keys - old(trie.NodeInfo.Keys));
      BlocksWordsStep(blocks, k);
      TaggedAppend(BlocksWords(blocks[..k]), BlockWords(blocks[k]), uri);
    }
    assert blocks[..|blocks|] == blocks;
  }

  lemma PrefixStepKeys(keys: seq<string>, i: nat)
    requires i < |keys|
    ensures keys[..i + 1] == keys[..i] + [keys[i]]
    ensures Elems(keys[..i + 1]) == Elems(keys[..i]) + {keys[i]}
  {
    assert keys[..i + 1] == keys[..i] + [keys[i]];
    ElemsAppend(keys[..i], [keys[i]]);
    assert Elems([keys[i]]) == {keys[i]};
  }

  lemma RecordsUnderStep(store: map<string, Stored>, keys: seq<string>, i: nat)
    requires i < |keys|
    ensures RecordsUnder(store, keys[..i + 1]) ==
              if keys[i] in store && store[keys[i]].Record? then
                RecordsUnder(store, keys[..i]) + [(store[keys[i]].uri, store[keys[i]].ocrData)]
              else RecordsUnder(store, keys[..i])
  {
    assert keys[..i + 1][..i] == keys[..i];
  }

  lemma SuccessesStep(uris: seq<string>, i: nat, detect: string -> Detection)
    requires i < |uris|
    ensures Successes(uris[..i + 1], detect) ==
              match Recognized(detect(uris[i]))
              case Some(blocks) => Successes(uris[..i], detect) + [(uris[i], blocks)]
              case None => Successes(uris[..i], detect)
  {
    assert uris[..i + 1][..i] == uris[..i];
  }

  /** The photos loadStoredPhotos appends are the URIs it records blocks for. */
  lemma LoadedPhotos(photos: seq<string>, store: map<string, Stored>, keys: seq<string>)
    ensures photos <= WithPhotos(photos, LoadedRecords(store, keys))
    ensures forall u :: u in WithPhotos(photos, LoadedRecords(store, keys)) <==>
                        u in photos || u in LoadedData(store, Elems(keys))
    ensures NoDuplicates(photos) ==> NoDuplicates(WithPhotos(photos, LoadedRecords(store, keys)))
  {
    var recs := LoadedRecords(store, keys);
    WithPhotosShape(photos, recs);
    LoadedInAnyOrder(map[], store, keys);
    forall u ensures (exists p | p in recs :: p.0 == u) <==> u in LoadedData(store, Elems(keys)) {
      WithOcrKeys(map[], recs, u);
    }
  }

  /** Every URI the index answers with has recognised text, and every photo
      with a word starting with `prefix` is among the answers. */
  lemma AnswersAreIndexed(ocrData: map<string, seq<TextBlock>>, contents: set<(string, string)>, prefix: string,
                          results: seq<string>)
    requires Indexed(ocrData, contents) && Elems(results) == Lookup(contents, prefix)
    ensures forall u | u in results :: u in ocrData
    ensures forall u, w | u in ocrData && w in BlocksWords(ocrData[u]) && prefix <= w :: u in results
  {
    forall u | u in results ensures u in ocrData {
      assert u in Elems(results);
      IndexedLookup(ocrData, contents, prefix, u, "");
    }
    forall u, w | u in ocrData && w in BlocksWords(ocrData[u]) && prefix <= w ensures u in results {
      IndexedLookup(ocrData, contents, prefix, u, w);
      assert u in Elems(results);
    }
  }

  // ----- the effects of whole operations, on values -----

  /** The part of the component's state that loading and fetching change:
      the photo list, the recognised blocks, the trie's pairs and the store. */
  datatype View = View(photos: seq<string>, ocrData: map<string, seq<TextBlock>>,
                       contents: set<(string, string)>, store: map<string, Stored>)

  /** `keys` is a listing of the store's keys, as getAllKeys gives it. */
  predicate ListsKeys(keys: seq<string>, store: map<string, Stored>)
  {
    Elems(keys) == store.Keys && NoDuplicates(keys)
  }

  /** What loadStoredPhotos leaves when getAllKeys lists the keys as `keys`. */
  function Loaded(v: View, keys: seq<string>): View
  {
    var loaded := LoadedData(v.store, v.store.Keys);
    View(WithPhotos(v.photos, LoadedRecords(v.store, keys)), v.ocrData + loaded,
         v.contents + LoadedPairs(loaded), v.store)
  }

  /** What step 1, step 2 and the cleanup of fetchPhotos leave, once the
      photo list is the enumerated one: step 1 hands the records stored
      under `toRead` to handlePhotoWithExistingData, step 2 runs
      handleNewPhoto on `news` until an OCR call rejects, and unless one
      does, the `obsolete` keys are removed. */
  function Reconciled(v: View, toRead: seq<string>, news: seq<string>, obsolete: seq<string>,
                      detect: string -> Detection): View
  {
    var hits := RecordsUnder(v.store, toRead);
    var n := FirstFailure(news, detect);
    var recs := Successes(news[..n], detect);
    View(WithPhotos(v.photos, hits), WithOcr(WithOcr(v.ocrData, hits), recs),
         WithPairs(WithPairs(v.contents, hits), recs),
         if n < |news| then WithRecords(v.store, recs)
         else WithRecords(v.store, recs) - Elems(obsolete))
  }

  /** What fetchPhotos as written leaves when getAllKeys lists the keys as
      `allKeys`: nothing changes when the enumeration fails; otherwise the
      photo list becomes the enumerated one, step 1 reads each existing key
      run through generateStorageKey once more, and step 2 runs OCR on the
      live URIs that are not themselves existing keys. */
  function Fetched(v: View, enumeration: Option<seq<string>>, detect: string -> Detection,
                   allKeys: seq<string>): View
  {
    if enumeration.None? then v
    else
      var edges := enumeration.value;
      var existing := ExistingKeys(allKeys, Elems(edges));
      Reconciled(v.(photos := edges), Regenerated(existing), NewPhotoUris(edges, existing),
                 ObsoleteKeys(allKeys, Elems(edges)), detect)
  }

  /** The same for fetchPhotos as evidently intended: a stored key is
      existing when it is the key of a live URI and obsolete otherwise, step 1
      reads the existing keys themselves, and step 2 runs OCR only on the
      live URIs whose key is not an existing key. */
  function FetchedIntended(v: View, enumeration: Option<seq<string>>, detect: string -> Detection,
                           allKeys: seq<string>): View
  {
    if enumeration.None? then v
    else
      var edges := enumeration.value;
      var existing := ExistingKeysIntended(allKeys, Elems(edges));
      Reconciled(v.(photos := edges), existing, NewPhotoUrisIntended(edges, existing),
                 ObsoleteKeysIntended(allKeys, Elems(edges)), detect)
  }

  /** The photo "a:b" is stored under "img_a_b", which decodes to "a/b". */
  lemma ColonKey()
    ensures GenerateStorageKey("a:b") == "img_a_b" && GetUriFromStorageKey("img_a_b") == "a/b"
  {
    assert Sanitize("a:b") == "a_b";
    assert "img_a_b"[|KeyPrefix|..] == "a_b";
    assert Unsanitize("a_b") == "a/b";
  }

  /** As written, the record of the live photo "a:b", stored under its own
      key "img_a_b", is not read by step 1, and unless its OCR call rejects,
      the cleanup removes that key after step 2 has written it again. */
  lemma LiveRecordDeleted(v: View, detect: string -> Detection)
    requires v.store == map["img_a_b" := Record("a:b", [TextBlock("hi")])]
    requires !detect("a:b").DetectFailed?
    ensures ExistingKeys(["img_a_b"], {"a:b"}) == []
    ensures "img_a_b" !in Fetched(v, Some(["a:b"]), detect, ["img_a_b"]).store
  {
    ColonKey();
    var live := Elems(["a:b"]);
    assert live == {"a:b"};
    assert ExistingKeys(["img_a_b"], live) == [];
    var news := NewPhotoUris(["a:b"], []);
    assert FirstFailure(news, detect) == |news|;
    assert "img_a_b" in ObsoleteKeys(["img_a_b"], live);
  }

  /** As intended, the same record is read back under "a:b", the photo is
      not sent to OCR, and the store keeps the record. */
  lemma LiveRecordKept(v: View, detect: string -> Detection)
    requires v.store == map["img_a_b" := Record("a:b", [TextBlock("hi")])]
    ensures ExistingKeysIntended(["img_a_b"], {"a:b"}) == ["img_a_b"]
    ensures var w := FetchedIntended(v, Some(["a:b"]), detect, ["img_a_b"]);
            w.store == v.store && w.ocrData == v.ocrData["a:b" := [TextBlock("hi")]]
  {
    assert Elems(["a:b"]) == {"a:b"};
    ColonClassifiedIntended();
    var v' := v.(photos := ["a:b"]);
    assert FetchedIntended(v, Some(["a:b"]), detect, ["img_a_b"]) == Reconciled(v', ["img_a_b"], [], [], detect);
    var hits := [("a:b", [TextBlock("hi")])];
    ExampleReadsColonRecord(v.store);
    assert FirstFailure([], detect) == 0;
    assert Successes([][..0], detect) == [];
    assert WithOcr(v.ocrData, hits) == WithOcr(v.ocrData, [])["a:b" := [TextBlock("hi")]];
    assert WithRecords(v.store, []) == v.store;
  }

  /** With the intended classification, "img_a_b" is existing for the live
      photo "a:b", no key is obsolete, and step 2 has nothing to do. */
  lemma ColonClassifiedIntended()
    ensures ExistingKeysIntended(["img_a_b"], {"a:b"}) == ["img_a_b"]
    ensures ObsoleteKeysIntended(["img_a_b"], {"a:b"}) == []
    ensures NewPhotoUrisIntended(["a:b"], ["img_a_b"]) == []
  {
    ColonKey();
    assert "img_a_b" in LiveKeys({"a:b"});
    assert ExistingKeysIntended(["img_a_b"], {"a:b"}) == ["img_a_b"] + ExistingKeysIntended([], {"a:b"});
    assert ObsoleteKeysIntended(["img_a_b"], {"a:b"}) == [] + ObsoleteKeysIntended([], {"a:b"});
    assert Dedup(["a:b"]) == ["a:b"];
    assert WithoutStored(["a:b"], ["img_a_b"]) == [] + WithoutStored([], ["img_a_b"]);
  }

  lemma ExampleReadsColonRecord(store: map<string, Stored>)
    requires store == map["img_a_b" := Record("a:b", [TextBlock("hi")])]
    ensures RecordsUnder(store, ["img_a_b"]) == [("a:b", [TextBlock("hi")])]
  {
    assert ["img_a_b"][..0] == [];
  }

  // ----- the component's state -----

  /** The App component's state that the photo logic reads and writes: the
      photo list shown, the recognised blocks per URI, the persistent store,
      the search results and the trie built once with `useMemo`. */
  class App {
    var photos: seq<string>
    var ocrData: map<string, seq<TextBlock>>
    var store: map<string, Stored>
    var searchResults: seq<string>
    const trie: Trie

    /** The trie is well formed and its index covers the recognised text. */
    ghost predicate Valid()
      reads this, trie, trie.NodeInfo.Keys
    {
      trie.Valid() && Indexed(ocrData, trie.Contents)
    }

    ghost function Snapshot(): View
      reads this, trie
    {
      View(photos, ocrData, trie.Contents, store)
    }

    /** The component mounts over whatever the store already holds. */
    constructor (persisted: map<string, Stored>)
      ensures Valid() && fresh(trie) && fresh(trie.NodeInfo.Keys)
      ensures photos == [] && ocrData == map[] && store == persisted && searchResults == []
      ensures trie.Contents == {}
    {
      photos := [];
      ocrData := map[];
      store := persisted;
      searchResults := [];
      trie := new Trie();
    }

    /** `AsyncStorage.getAllKeys()`: every stored key once, in some order. */
    method AllKeys() returns (keys: seq<string>)
      ensures Elems(keys) == store.Keys && NoDuplicates(keys)
    {
      keys := [];
      var rest := store.Keys;
      while rest != {}
        invariant Elems(keys) + rest == store.Keys && Elems(keys) !! rest && NoDuplicates(keys)
        decreases |rest|
      {
        var k :| k in rest;
        ElemsAppend(keys, [k]);
        assert Elems([k]) == {k};
        NoDuplicatesAppend(keys, [k]);
        keys := keys + [k];
        rest := rest - {k};
      }
    }

    /** What both handlers do with a photo's blocks: `setOcrData` with the
        blocks under `uri`, and every word inserted into the trie with `uri`. */
    method Learn(uri: string, blocks: seq<TextBlock>)
      requires Valid()
      modifies this, trie, trie.NodeInfo.Keys
      ensures Valid() && fresh(trie.NodeInfo.Keys - old(trie.NodeInfo.Keys))
      ensures photos == old(photos) && store == old(store) && searchResults == old(searchResults)
      ensures ocrData == old(ocrData)[uri := blocks]
      ensures trie.Contents == old(trie.Contents) + Tagged(BlocksWords(blocks), uri)
    {
      IndexedAfterRecord(ocrData, trie.Contents, uri, blocks);
      ocrData := ocrData[uri := blocks];
      IndexBlocks(trie, blocks, uri);
    }

    /** handleNewPhoto: a rejected OCR call rejects the handler and changes
        nothing; a null or empty result returns false and changes nothing;
        otherwise the blocks are recorded, their words indexed under `uri`,
        the record written under the URI's key, and the handler returns true. */
    method HandleNewPhoto(uri: string, detection: Detection) returns (outcome: Outcome)
      requires Valid()
      modifies this, trie, trie.NodeInfo.Keys
      ensures Valid() && fresh(trie.NodeInfo.Keys - old(trie.NodeInfo.Keys))
      ensures photos == old(photos) && searchResults == old(searchResults)
      ensures outcome == if detection.DetectFailed? then Threw else Returned(Recognized(detection).Some?)
      ensures Recognized(detection).None? ==>
                ocrData == old(ocrData) && store == old(store) && trie.Contents == old(trie.Contents)
      ensures Recognized(detection).Some? ==>
                var blocks := Recognized(detection).value;
                && ocrData == old(ocrData)[uri := blocks]
                && trie.Contents == old(trie.Contents) + Tagged(BlocksWords(blocks), uri)
                && store == old(store)[GenerateStorageKey(uri) := Record(uri, blocks)]
    {
      if detection.DetectFailed? {
        return Threw;
      }
      var textRecognition := detection.result;
      if textRecognition.Some? && |textRecognition.value| > 0 {
        var blocks := textRecognition.value;
        Learn(uri, blocks);
        store := store[GenerateStorageKey(uri) := Record(uri, blocks)];
        assert trie.Valid();
        return Returned(true);
      }
      return Returned(false);
    }

    /** handlePhotoWithExistingData: a value that is neither a record nor an
        array of blocks changes nothing; otherwise its blocks are recorded and
        indexed under `uri`, and `uri` is appended to the photos unless shown. */
    method HandlePhotoWithExistingData(uri: string, parsed: Stored)
      requires Valid()
      modifies this, trie, trie.NodeInfo.Keys
      ensures Valid() && fresh(trie.NodeInfo.Keys - old(trie.NodeInfo.Keys))
      ensures store == old(store) && searchResults == old(searchResults)
      ensures AcceptedBlocks(parsed).None? ==>
                photos == old(photos) && ocrData == old(ocrData) && trie.Contents == old(trie.Contents)
      ensures AcceptedBlocks(parsed).Some? ==>
                var blocks := AcceptedBlocks(parsed).value;
                && ocrData == old(ocrData)[uri := blocks]
                && trie.Contents == old(trie.Contents) + Tagged(BlocksWords(blocks), uri)
                && photos == if uri in old(photos) then old(photos) else old(photos) + [uri]
    {
      var actualOcrData := AcceptedBlocks(parsed);
      if actualOcrData.None? {
        return;
      }
      var blocks := actualOcrData.value;
      Learn(uri, blocks);
      if uri !in photos {
        photos := photos + [uri];
        assert trie.Valid();
      }
    }
  
    /** loadStoredPhotos: every stored key is decoded, 'test' is skipped, and
        the value read back under each URI's key is handed to
        handlePhotoWithExistingData. */
    method LoadStoredPhotos() returns (storedKeys: seq<string>)
      requires Valid()
      modifies this, trie, trie.NodeInfo.Keys
      ensures Valid() && fresh(trie.NodeInfo.Keys - old(trie.NodeInfo.Keys))
      ensures searchResults == old(searchResults)
      ensures ListsKeys(storedKeys, store)
      ensures Snapshot() == Loaded(old(Snapshot()), storedKeys)
      ensures old(photos) <= photos
      ensures forall u :: u in photos <==> u in old(photos) || u in LoadedData(store, store.Keys)
      ensures NoDuplicates(old(photos)) ==> NoDuplicates(photos)
    {
      storedKeys := AllKeys();
      ghost var ocr0, pairs0, photos0 := ocrData, trie.Contents, photos;
      for i := 0 to |storedKeys|
        invariant Valid() && fresh(trie.NodeInfo.Keys - old(trie.NodeInfo.Keys))
        invariant store == old(store) && searchResults == old(searchResults)
        invariant ocrData == WithOcr(ocr0, LoadedRecords(store, storedKeys[..i]))
        invariant trie.Contents == WithPairs(pairs0, LoadedRecords(store, storedKeys[..i]))
        invariant photos == WithPhotos(photos0, LoadedRecords(store, storedKeys[..i]))
      {
        var uri := GetUriFromStorageKey(storedKeys[i]);
        PrefixStepKeys(storedKeys, i);
        LoadedRecordsStep(store, storedKeys[..i], storedKeys[i]);
        if uri != TestKey {
          var key := GenerateStorageKey(uri);
          if key in store {
            var savedOcrData := store[key];
            ghost var nodesI := trie.NodeInfo.Keys;
            HandlePhotoWithExistingData(uri, savedOcrData);
            assert fresh(trie.NodeInfo.Keys - nodesI);
            assert fresh(trie.NodeInfo.Keys - old(trie.NodeInfo.Keys));
            if AcceptedBlocks(savedOcrData).Some? {
              FoldStep(LoadedRecords(store, storedKeys[..i]), (uri, AcceptedBlocks(savedOcrData).value),
                       ocr0, pairs0, photos0, store);
            }
          }
        }
      }
      assert storedKeys[..|storedKeys|] == storedKeys;
      LoadedInAnyOrder(ocr0, store, storedKeys);
      LoadedPairsInAnyOrder(pairs0, store, storedKeys);
      LoadedPhotos(photos0, store, storedKeys);
      assert ocrData == ocr0 + LoadedData(store, store.Keys);
      assert trie.Contents == pairs0 + LoadedPairs(LoadedData(store, store.Keys));
    }

    /** Step 1 of fetchPhotos: the value stored under each of `keys` is read
        and, when it parses to a record, handed to handlePhotoWithExistingData
        with the record's own URI. */
    method LoadExisting(keys: seq<string>)
      requires Valid()
      modifies this, trie, trie.NodeInfo.Keys
      ensures Valid() && fresh(trie.NodeInfo.Keys - old(trie.NodeInfo.Keys))
      ensures store == old(store) && searchResults == old(searchResults)
      ensures var hits := RecordsUnder(store, keys);
              && ocrData == WithOcr(old(ocrData), hits)
              && trie.Contents == WithPairs(old(trie.Contents), hits)
              && photos == WithPhotos(old(photos), hits)
    {
      ghost var ocr0, pairs0, photos0 := ocrData, trie.Contents, photos;
      for i := 0 to |keys|
        invariant Valid() && fresh(trie.NodeInfo.Keys - old(trie.NodeInfo.Keys))
        invariant store == old(store) && searchResults == old(searchResults)
        invariant ocrData == WithOcr(ocr0, RecordsUnder(store, keys[..i]))
        invariant trie.Contents == WithPairs(pairs0, RecordsUnder(store, keys[..i]))
        invariant photos == WithPhotos(photos0, RecordsUnder(store, keys[..i]))
      {
        var key := keys[i];
        RecordsUnderStep(store, keys, i);
        if key in store {
          var imageData := store[key];
          if imageData.Record? {
            ghost var nodesI := trie.NodeInfo.Keys;
            HandlePhotoWithExistingData(imageData.uri, imageData);
            assert fresh(trie.NodeInfo.Keys - nodesI);
            assert fresh(trie.NodeInfo.Keys - old(trie.NodeInfo.Keys));
            FoldStep(RecordsUnder(store, keys[..i]), (imageData.uri, imageData.ocrData), ocr0, pairs0, photos0, store);
          }
        }
      }
      assert keys[..|keys|] == keys;
    }

    /** Step 2 of fetchPhotos: handleNewPhoto for each new URI in turn; a
        rejected OCR call leaves the loop, and fetchPhotos, at once. */
    method ProcessNew(news: seq<string>, detect: string -> Detection) returns (aborted: bool)
      requires Valid()
      modifies this, trie, trie.NodeInfo.Keys
      ensures Valid() && fresh(trie.NodeInfo.Keys - old(trie.NodeInfo.Keys))
      ensures photos == old(photos) && searchResults == old(searchResults)
      ensures aborted <==> FirstFailure(news, detect) < |news|
      ensures var recs := Successes(news[..FirstFailure(news, detect)], detect);
              && ocrData == WithOcr(old(ocrData), recs)
              && trie.Contents == WithPairs(old(trie.Contents), recs)
              && store == WithRecords(old(store), recs)
    {
      ghost var ocr0, pairs0, store0 := ocrData, trie.Contents, store;
      for i := 0 to |news|
        invariant Valid() && fresh(trie.NodeInfo.Keys - old(trie.NodeInfo.Keys))
        invariant photos == old(photos) && searchResults == old(searchResults)
        invariant i <= FirstFailure(news, detect)
        invariant ocrData == WithOcr(ocr0, Successes(news[..i], detect))
        invariant trie.Contents == WithPairs(pairs0, Successes(news[..i], detect))
        invariant store == WithRecords(store0, Successes(news[..i], detect))
      {
        var detection := detect(news[i]);
        ghost var nodesI, ocrI, pairsI, storeI := trie.NodeInfo.Keys, ocrData, trie.Contents, store;
        var success := HandleNewPhoto(news[i], detection);
        assert fresh(trie.NodeInfo.Keys - nodesI);
        assert fresh(trie.NodeInfo.Keys - old(trie.NodeInfo.Keys));
        if success.Threw? {
          assert FirstFailure(news, detect) == i;
          assert ocrData == ocrI && trie.Contents == pairsI && store == storeI;
          return true;
        }
        SuccessesStep(news, i, detect);
        var found := Recognized(detection);
        if found.Some? {
          FoldStep(Successes(news[..i], detect), (news[i], found.value), ocr0, pairs0, [], store0);
        }
      }
      assert news[..|news|] == news;
      assert FirstFailure(news, detect) == |news|;
      return false;
    }

    /** The cleanup loop: `AsyncStorage.removeItem` for each obsolete key. */
    method RemoveObsolete(obsolete: seq<string>)
      requires Valid()
      modifies this
      ensures Valid()
      ensures photos == old(photos) && ocrData == old(ocrData) && searchResults == old(searchResults)
      ensures store == old(store) - Elems(obsolete)
    {
      for i := 0 to |obsolete|
        invariant Valid()
        invariant photos == old(photos) && ocrData == old(ocrData) && searchResults == old(searchResults)
        invariant store == old(store) - Elems(obsolete[..i])
      {
        PrefixStepKeys(obsolete, i);
        store := store - {obsolete[i]};
        assert trie.Valid();
      }
      assert obsolete[..|obsolete|] == obsolete;
    }

    /** Steps 1 and 2 of fetchPhotos and its cleanup, given the keys step 1
        reads, the URIs step 2 hands to handleNewPhoto and the keys the
        cleanup removes unless an OCR call rejected. */
    method Reconcile(toRead: seq<string>, news: seq<string>, obsolete: seq<string>, detect: string -> Detection)
      requires Valid()
      modifies this, trie, trie.NodeInfo.Keys
      ensures Valid() && fresh(trie.NodeInfo.Keys - old(trie.NodeInfo.Keys))
      ensures searchResults == old(searchResults)
      ensures Snapshot() == Reconciled(old(Snapshot()), toRead, news, obsolete, detect)
      ensures ((TestKey in old(store) ==> TestKey in obsolete) &&
               forall u | u in news :: !detect(u).DetectFailed?) ==> TestKey !in store
    {
      ghost var nodes0, ocr0, pairs0, store0 := trie.NodeInfo.Keys, ocrData, trie.Contents, store;
      LoadExisting(toRead);
      ghost var hits := RecordsUnder(store0, toRead);
      assert fresh(trie.NodeInfo.Keys - nodes0);
      ghost var nodes1, ocr1, pairs1 := trie.NodeInfo.Keys, ocrData, trie.Contents;
      assert ocr1 == WithOcr(ocr0, hits) && pairs1 == WithPairs(pairs0, hits) && store == store0;
      var aborted := ProcessNew(news, detect);
      ghost var recs := Successes(news[..FirstFailure(news, detect)], detect);
      assert fresh(trie.NodeInfo.Keys - nodes0);
      assert ocrData == WithOcr(ocr1, recs) && trie.Contents == WithPairs(pairs1, recs);
      if aborted {
        assert news[FirstFailure(news, detect)] in news;
        return;
      }
      assert news[..|news|] == news;
      assert store == WithRecords(store0, recs);
      RemoveObsolete(obsolete);
      TestKeyNeverWritten(store0, recs);
    }

    /** fetchPhotos as written: when the photo enumeration fails nothing
        changes. Otherwise the photo list becomes the enumerated one, step 1
        reads each existing key run through generateStorageKey once more, and
        step 2 runs OCR on the live URIs that are not themselves existing keys. */
    method FetchPhotos(enumeration: Option<seq<string>>, detect: string -> Detection) returns (allKeys: seq<string>)
      requires Valid()
      modifies this, trie, trie.NodeInfo.Keys
      ensures Valid() && fresh(trie.NodeInfo.Keys - old(trie.NodeInfo.Keys))
      ensures searchResults == old(searchResults)
      ensures enumeration.Some? ==> ListsKeys(allKeys, old(store))
      ensures Snapshot() == Fetched(old(Snapshot()), enumeration, detect, allKeys)
      ensures (enumeration.Some? && TestKey !in enumeration.value &&
               forall u | u in enumeration.value :: !detect(u).DetectFailed?) ==> TestKey !in store
    {
      ghost var v0 := Snapshot();
      if enumeration.None? {
        return [];
      }
      var edges := enumeration.value;
      photos := edges;
      assert trie.Valid();
      var currentPhotoUris := Elems(edges);
      allKeys := AllKeys();
      var existingPhotos := ExistingKeys(allKeys, currentPhotoUris);
      var newPhotoUris := NewPhotoUris(edges, existingPhotos);
      var obsoleteUris := ObsoleteKeys(allKeys, currentPhotoUris);
      assert Snapshot() == v0.(photos := edges);
      if TestKey in store && TestKey !in edges {
        assert TestKey in allKeys by { assert TestKey in Elems(allKeys); }
        TestKeyObsolete(allKeys, currentPhotoUris);
      }
      Reconcile(Regenerated(existingPhotos), newPhotoUris, obsoleteUris, detect);
    }

    /** fetchPhotos as evidently intended: a stored key is existing when it is
        the key of a live URI and obsolete otherwise, step 1 reads the
        existing keys themselves, and step 2 runs OCR only on the live URIs
        whose key is not an existing key. The 'test' key is then removed
        whatever the photos' URIs. */
    method FetchPhotosIntended(enumeration: Option<seq<string>>, detect: string -> Detection)
      returns (allKeys: seq<string>)
      requires Valid()
      modifies this, trie, trie.NodeInfo.Keys
      ensures Valid() && fresh(trie.NodeInfo.Keys - old(trie.NodeInfo.Keys))
      ensures searchResults == old(searchResults)
      ensures enumeration.Some? ==> ListsKeys(allKeys, old(store))
      ensures Snapshot() == FetchedIntended(old(Snapshot()), enumeration, detect, allKeys)
      ensures (enumeration.Some? && forall u | u in enumeration.value :: !detect(u).DetectFailed?) ==>
                TestKey !in store
    {
      ghost var v0 := Snapshot();
      if enumeration.None? {
        return [];
      }
      var edges := enumeration.value;
      photos := edges;
      assert trie.Valid();
      var currentPhotoUris := Elems(edges);
      allKeys := AllKeys();
      var existingPhotos := ExistingKeysIntended(allKeys, currentPhotoUris);
      var newPhotoUris := NewPhotoUrisIntended(edges, existingPhotos);
      var obsoleteUris := ObsoleteKeysIntended(allKeys, currentPhotoUris);
      assert Snapshot() == v0.(photos := edges);
      if TestKey in store {
        assert TestKey in allKeys by { assert TestKey in Elems(allKeys); }
        TestKeyObsoleteIntended(allKeys, currentPhotoUris);
      }
      Reconcile(existingPhotos, newPhotoUris, obsoleteUris, detect);
    }

    /** The effect run when the search term changes: a blank trimmed term
        clears the results without a query; otherwise they are the trie's
        answer for the trimmed, lower-cased term, which holds every photo
        whose recognised text has a word starting with it and nothing else. */
    method Search(searchTerm: string)
      requires Valid()
      modifies this
      ensures Valid()
      ensures photos == old(photos) && ocrData == old(ocrData) && store == old(store)
      ensures Trim(searchTerm) == [] ==> searchResults == []
      ensures Trim(searchTerm) != [] ==>
                NoDuplicates(searchResults) && Elems(searchResults) == Lookup(trie.Contents, Lower(Trim(searchTerm)))
      ensures forall u | u in searchResults :: u in ocrData
      ensures Trim(searchTerm) != [] ==>
                forall u, w | u in ocrData && w in BlocksWords(ocrData[u]) && Lower(Trim(searchTerm)) <= w ::
                  u in searchResults
    {
      var trimmedTerm := Trim(searchTerm);
      if trimmedTerm != [] {
        var results := trie.SearchWithPrefix(Lower(trimmedTerm));
        AnswersAreIndexed(ocrData, trie.Contents, Lower(trimmedTerm), results);
        searchResults := results;
        assert trie.Valid();
      } else {
        searchResults := [];
      }
    }

    /** runSearch: like the effect, except that a blank trimmed term leaves
        the results as they were. */
    method RunSearch(searchTerm: string)
      requires Valid()
      modifies this
      ensures Valid()
      ensures photos == old(photos) && ocrData == old(ocrData) && store == old(store)
      ensures Trim(searchTerm) == [] ==> searchResults == old(searchResults)
      ensures Trim(searchTerm) != [] ==>
                NoDuplicates(searchResults) && Elems(searchResults) == Lookup(trie.Contents, Lower(Trim(searchTerm)))
    {
      if Trim(searchTerm) != [] {
        Search(searchTerm);
      }
    }

    /** initializeApp: writes the 'test' value, asks for permission (which
        runs fetchPhotos when granted), loads the stored photos, and runs
        fetchPhotos once more. The key listings each getAllKeys gave are
        returned, and the final state is the composition of those three
        operations. Each fetch makes its own OCR calls, so `detect1` and
        `detect2` answer them separately. When the last enumeration succeeds
        without the URI 'test' and none of its OCR calls rejects, the 'test'
        key is gone. */
    method InitializeApp(granted: bool, first: Option<seq<string>>, second: Option<seq<string>>,
                         detect1: string -> Detection, detect2: string -> Detection)
      returns (firstKeys: seq<string>, loadKeys: seq<string>, secondKeys: seq<string>)
      requires Valid()
      modifies this, trie, trie.NodeInfo.Keys
      ensures Valid() && searchResults == old(searchResults)
      ensures var v0 := old(Snapshot()).(store := old(store)[TestKey := Unreadable]);
              var v1 := if granted then Fetched(v0, first, detect1, firstKeys) else v0;
              var v2 := Loaded(v1, loadKeys);
              && (granted && first.Some? ==> ListsKeys(firstKeys, v0.store))
              && ListsKeys(loadKeys, v1.store)
              && (second.Some? ==> ListsKeys(secondKeys, v2.store))
              && Snapshot() == Fetched(v2, second, detect2, secondKeys)
      ensures (second.Some? && TestKey !in second.value &&
               forall u | u in second.value :: !detect2(u).DetectFailed?) ==> TestKey !in store
    {
      store := store[TestKey := Unreadable];
      assert trie.Valid();
      ghost var v0 := Snapshot();
      assert v0 == old(Snapshot()).(store := old(store)[TestKey := Unreadable]);
      firstKeys := [];
      if granted {
        firstKeys := FetchPhotos(first, detect1);
        assert fresh(trie.NodeInfo.Keys - old(trie.NodeInfo.Keys));
      }
      ghost var v1, nodes1 := Snapshot(), trie.NodeInfo.Keys;
      assert v1 == if granted then Fetched(v0, first, detect1, firstKeys) else v0;
      loadKeys := LoadStoredPhotos();
      assert fresh(trie.NodeInfo.Keys - nodes1);
      assert fresh(trie.NodeInfo.Keys - old(trie.NodeInfo.Keys));
      ghost var v2 := Snapshot();
      assert v2 == Loaded(v1, loadKeys);
      secondKeys := FetchPhotos(second, detect2);
    }
  }
}
