# ImageSearch photo index, in Dafny

ImageSearch is a React Native gallery. It runs on-device OCR over every
photo, keeps the recognised text blocks in AsyncStorage, and answers a
search box by prefix over the recognised words. All of its logic lives
in `App.js`. This project models that logic:

- **Prefix index** (`trie.dfy`, module `PrefixIndex`): the `TrieNode`/`Trie`
  classes as heap objects.
  - `insert` splits a phrase on `' '` and walks or creates one child per
    character, then adds the URI to the end node's set.
  - `searchWithPrefix` descends along the prefix, answers `[]` on a missing
    child, and gathers the subtree's URIs without duplicates.
  - Ghost state ties the nodes to the set of (word, uri) pairs inserted so
    far, so insert and search are proved against `Lookup`, a plain set
    definition of what a prefix query must answer.
- **Storage keys** (`keys.dfy`, module `StorageKeys`):
  - `generateStorageKey` prefixes `img_` and maps every non-word character
    to `_`;
  - `getUriFromStorageKey` strips `img_` and maps `_` back to `/`, so the
    round trip holds only for URIs made of ASCII letters, digits and `/`.
- **Text** (`text.dfy`, module `Text`): JavaScript whitespace, `trim`,
  `toLowerCase`, `split(' ')`, `split(/\s+/)`, `includes`, and the unused
  `imageContainsTerm`.
- **Gallery** (`app.dfy`, module `Gallery`): the component state as a class
  `App` with
  - the photo list,
  - `ocrData` (URI to text blocks),
  - the store (key to parsed value),
  - the search results,
  - the trie built once by `useMemo`.

  The class also holds the two photo handlers, `loadStoredPhotos`,
  `fetchPhotos` (enumeration, the two steps and the cleanup), the search
  effect, `runSearch` and `initializeApp`. Its invariant `Valid` says the
  trie's index covers the recognised text: every word of every photo's
  blocks is in the trie under that photo, and every URI in the trie has
  blocks. The trie never forgets a pair, so when a photo's blocks are
  recorded again, the words of its earlier blocks still find it; App.js
  behaves the same way.

Everything outside the sandbox becomes a parameter:

- the photo enumeration is an `Option<seq<string>>`, with `None` when
  `CameraRoll.getPhotos` rejects;
- the OCR call is a function from URI to `Detection` (a rejection, or a
  possibly null result);
- the permission answer is a `bool`;
- `JSON.parse` of a stored value is the datatype `Stored`.

Empty words are not discarded before indexing: `split(/\s+/)` yields `""`
for leading or trailing whitespace, and `insert("")` adds the URI to the
root node (App.js:197-200). `SplitWhitespace` yields those empty words and
`Trie.Insert` stores them at the root.

A photo whose OCR result is null or empty is not cached: handleNewPhoto
returns `false` and writes nothing (App.js:250, 279), so such a photo is
sent to OCR again by the next fetchPhotos. `HandleNewPhoto` does the same.

## Model

| member | source | states |
|---|---|---|
| StorageKeys.Sanitize | App.js:22 | the result has the URI's length, holds only word characters, and keeps a character exactly when it is a word character |
| StorageKeys.GenerateStorageKey | App.js:22 | every key starts with "img_", is four characters longer than the URI, and holds only word characters after the prefix |
| StorageKeys.Unsanitize | App.js:24 | the result has the input's length, holds no '_', and keeps every character other than '_' |
| StorageKeys.GetUriFromStorageKey | App.js:23-24 | a key not starting with "img_" decodes to itself; one that does loses four characters and holds no '_' |
| StorageKeys.RoundTrip | App.js:22-24 | decoding the key of a URI gives the URI back exactly when the URI is made of ASCII letters, digits and '/' |
| StorageKeys.KeyOfDecodedKey | App.js:22-24 | re-encoding the URI decoded from a generated key gives the same key |
| StorageKeys.KeysCollide | App.js:22 | two different URIs ("a:b" and "a/b") share one key |
| Text.LowerChar | App.js:197 | the result is never an ASCII upper-case letter; upper-case letters move by 32, all else is kept, whitespace stays whitespace |
| Text.Lower | App.js:197 | lower-cases every character in place and leaves no upper-case letter |
| Text.LowerIdempotent | App.js:197 | lower-casing twice is lower-casing once |
| Text.LowerOfLowercase | App.js:197 | text without upper-case letters is unchanged |
| Text.TrimStart | App.js:51 | the result is a suffix of the input that does not start with whitespace, and everything dropped is whitespace |
| Text.TrimEnd | App.js:51 | the result is a prefix of the input that does not end with whitespace, and everything dropped is whitespace |
| Text.Trim | App.js:153 | the trimmed term is no longer than the term and neither starts nor ends with whitespace |
| Text.TrimSlice | App.js:153-154 | the trimmed term is a slice with only whitespace cut on either side; it is empty exactly when the term is all whitespace |
| Text.SplitOn | App.js:91 | `split(' ')` yields at least one piece and no piece holds the separator |
| Text.JoinSplit | App.js:91 | joining the pieces with the separator gives the phrase back |
| Text.SplitJoin | App.js:91 | splitting a join of separator-free words gives the words back |
| Text.SplitWithoutSeparator | App.js:91 | a phrase without the separator splits into itself alone |
| Text.SplitAppend | App.js:91 | splitting `w + sep + t` gives `w` followed by the pieces of `t` |
| Text.SplitWhitespace | App.js:197 | `split(/\s+/)` yields pieces without whitespace, `[""]` for `""`, no empty inner piece, and a non-empty first piece when the text starts with a non-space |
| Text.SplitWhitespaceKeepsText | App.js:197 | the pieces put together are the text with its whitespace removed |
| Text.SplitWhitespaceWord | App.js:197 | text without whitespace splits into itself alone |
| Text.SplitWhitespaceRun | App.js:197 | a leading run of whitespace, of any length, yields one empty first piece |
| Text.SplitWhitespaceAppend | App.js:197 | a word followed by a maximal run of whitespace is one piece whatever the run's length; with nothing after the run the last piece is empty |
| Text.SplitWhitespaceJoin | App.js:197 | splitting words joined by single spaces gives the words back, when no word holds whitespace and only the first and last may be empty |
| Text.BlockWords | App.js:197 | a block yields at least one word, and no word holds a space or an upper-case letter |
| Text.WordCharsFromText | App.js:197 | every character of a word comes from the split text |
| Text.BlocksWords | App.js:196-202 | no word handed to the trie holds a space, so `insert` keeps each word whole |
| Text.BlocksWordsFromBlocks | App.js:196-202 | a word is handed to the trie exactly when some block yields it |
| Text.ImageContainsTerm | App.js:237-245 | true exactly when some block's lower-cased text includes the trimmed, lower-cased term |
| PrefixIndex.TrieNode.constructor | App.js:77-81 | a new node has no children, is not a word end, and holds no URI |
| PrefixIndex.Trie.constructor | App.js:85-87 | a new trie is well formed and holds no pair |
| PrefixIndex.TaggedAppend | App.js:90-104 | the pairs for two word lists put end to end are the pairs for each list together, so inserting the words of several blocks in turn adds the pairs of all of them |
| PrefixIndex.PrefixInTrie | App.js:94-100 | the paths of the trie are closed under prefixes |
| PrefixIndex.Trie.AddChild | App.js:96-98 | hangs one fresh node under the character, changes no pair and adds no other node |
| PrefixIndex.Trie.Descend | App.js:95-99 | reaches the node of the path one character longer, creating it when missing, and keeps every pair |
| PrefixIndex.Trie.Mark | App.js:101-102 | adds exactly the pair (word, uri) and creates no node |
| PrefixIndex.Trie.InsertWord | App.js:93-102 | inserting one word adds exactly the pair (word, uri) |
| PrefixIndex.Trie.Insert | App.js:90-104 | adds exactly the pairs tagging each space-separated piece of the phrase, empty pieces included, with the URI |
| PrefixIndex.InsertedIsFound | App.js:90-131 | after inserting a phrase, every prefix of every piece of it finds the URI |
| PrefixIndex.LookupSound | App.js:107-131 | a prefix finds a URI exactly when the URI was inserted under a word starting with the prefix |
| PrefixIndex.InsertIdempotent | App.js:80-103 | inserting the same phrase under the same URI again changes no query answer |
| PrefixIndex.MissingChildEmpty | App.js:111-113 | when a prefix character has no child on the path, no inserted word starts with the prefix, so `[]` is the right answer |
| PrefixIndex.LookupSplits | App.js:117-127 | a node's answer is its own URIs together with those of its children's subtrees |
| PrefixIndex.Trie.SearchWithPrefix | App.js:107-133 | the result has no duplicates and holds exactly the URIs inserted under a word starting with the prefix |
| PrefixIndex.Trie.Gather | App.js:117-128 | extends the array without duplicates, keeping it as a prefix, by exactly the URIs below the node |
| PrefixIndex.PushData | App.js:118-124 | extends the array without duplicates, keeping it as a prefix, by exactly the node's URIs |
| Gallery.IndexedAfterRecord | App.js:192-202 | recording a photo's blocks and inserting their words keeps the index covering the recognised text; the words of blocks recorded earlier for the photo stay indexed |
| Gallery.IndexedLookup | App.js:152-156 | with the index in place, an answered URI has recognised text, and a photo with a word starting with the prefix is answered |
| Gallery.AcceptedBlocks | App.js:174-191 | a parsed value yields blocks exactly when it is an object with an `ocrData` array, whether or not it has a `uri`, or is itself an array; such an object yields its `ocrData`, and an array yields itself |
| Gallery.Recognized | App.js:248-250 | an OCR result is recorded exactly when the call resolves to a non-null, non-empty array, and then the result itself is recorded |
| Gallery.IndexedAfterRecords | App.js:172-212 | any run of handler calls keeps the index covering the recognised text |
| Gallery.WithOcrKeys | App.js:193 | a run of handler calls adds an `ocrData` entry for exactly the photos it records |
| Gallery.WithPhotosShape | App.js:205-210 | the photo list only grows at its end, gains exactly the recorded photos, and never shows a photo twice |
| Gallery.WithRecordsFrame | App.js:270-273 | after a run of writes, a key no photo encodes to keeps its value, and a written key holds a record whose URI encodes to it |
| Gallery.StoredPhotoUris | App.js:215-218 | the URIs visited never include 'test', each comes from a stored key, and every key-safe URI other than 'test' whose key is stored is visited |
| Gallery.LoadedRecords | App.js:216-228 | the photos handed on, at most one per key, are never 'test', and each comes with the blocks accepted from the value under its own key |
| Gallery.LoadedData | App.js:216-225 | the blocks loaded per URI: never for 'test', only for decoded URIs whose key holds a value with blocks, and for every such URI |
| Gallery.LoadedPairsUpdate | App.js:196-202 | recording a URI's blocks, when the URI holds no other blocks, adds exactly the pairs of the blocks' words tagged with the URI to the loaded pairs |
| Gallery.LoadedInAnyOrder | App.js:215-234 | the `ocrData` left by loadStoredPhotos does not depend on the order of the stored keys |
| Gallery.LoadedPairsInAnyOrder | App.js:215-234 | the pairs indexed by loadStoredPhotos do not depend on the order of the stored keys |
| Gallery.LoadedPhotos | App.js:205-228 | loadStoredPhotos appends to the photo list exactly the URIs it loads blocks for, without duplicates |
| Gallery.RecordLoadedUnderDecodedUri | App.js:216-224 | any value with accepted blocks under a URI's key, such as the record handleNewPhoto writes, is loaded at start-up under the URI the key decodes to, whatever `uri` field it holds |
| Gallery.UriLessRecordLoaded | App.js:172-228 | `{"ocrData":[{"text":"hi"}]}` without a `uri`, stored under "img_x", is loaded for "x" |
| Gallery.Dedup | App.js:313 | `[...new Set(edges)]` holds each live URI once |
| Gallery.Without | App.js:313-315 | filtering keeps exactly the elements not dropped, and no duplicates |
| Gallery.ExistingKeys | App.js:296-298 | `existingPhotos` holds exactly the stored keys whose decoded URI is live |
| Gallery.ObsoleteKeys | App.js:325-327 | `obsoleteUris` holds exactly the stored keys whose decoded URI is not live |
| Gallery.KeysPartition | App.js:296-327 | the existing and the obsolete keys split the stored keys into two disjoint parts |
| Gallery.TestKeyObsolete | App.js:325-327 | the 'test' key is obsolete whenever no live photo has the URI 'test' |
| Gallery.ExistingKeysIntended | App.js:296-298 | as intended, `existingPhotos` holds exactly the stored keys that are the key of some live URI |
| Gallery.ObsoleteKeysIntended | App.js:325-327 | as intended, `obsoleteUris` holds exactly the stored keys that are the key of no live URI |
| Gallery.IntendedKeepsLiveKeys | App.js:296-327 | as intended, a live photo's key is never obsolete and is existing exactly when stored, and the two classes split the stored keys |
| Gallery.TestKeyObsoleteIntended | App.js:325-327 | as intended, a stored 'test' key is always obsolete, since no URI encodes to it |
| Gallery.RecordsUnder | App.js:300-310 | the records handed on, at most one per key read, are each a record held in the store |
| Gallery.RecordsUnderComplete | App.js:300-310 | every record stored under a key that is read is handed on |
| Gallery.Regenerated | App.js:302-304 | step 1 reads one key per existing key, the key generated from it, and an existing key that already starts with "img_" becomes one starting with "img_img_" |
| Gallery.StepOneReadsNothing | App.js:300-310 | as written, step 1 loads nothing when the existing keys are generated keys and no key starts with "img_img_" |
| Gallery.NewPhotoUris | App.js:313-315 | as written, step 2 gets each live URI once that is not itself an existing key |
| Gallery.StepTwoRedoesAll | App.js:313-315 | as written, every live photo goes to OCR again when no live URI looks like a storage key |
| Gallery.WithoutStored | App.js:313-315 | keeps exactly the URIs whose key is not among the existing keys |
| Gallery.NewPhotoUrisIntended | App.js:313-315 | as intended, step 2 gets exactly the live URIs whose key is not an existing key |
| Gallery.IntendedSkipsStored | App.js:313-315 | as intended, with keys classed by the keys of the live URIs, a live photo goes to OCR exactly when nothing is stored under its key, whether or not its URI is key-safe |
| Gallery.IntendedReadsStored | App.js:300-310 | as intended, step 1 loads the record stored under each existing key |
| Gallery.StoredPhotoReprocessed | App.js:296-315 | for the live photo "a/b" with its record under "img_a_b": as written, step 1 loads nothing and "a/b" goes to OCR again; as intended, the record is loaded and OCR is skipped |
| Gallery.FirstFailure | App.js:317-318 | every URI before the index has an OCR call that resolves, and the one at the index has a call that rejects |
| Gallery.Successes | App.js:317-322 | the photos recorded by step 2 are exactly the processed URIs whose OCR result is a non-empty array, each with that result as its blocks |
| Gallery.CleanupOutcome | App.js:325-331 | after the cleanup no obsolete key is left, a key nobody wrote keeps its value, and a key written in step 2 holds a record |
| Gallery.TestKeyGone | App.js:325-331 | after a cleanup against photos without the URI 'test', the 'test' key is gone |
| Gallery.TestKeyNeverWritten | App.js:270-273 | the writes of step 2 never create or remove the 'test' key |
| Gallery.LiveRecordDeleted | App.js:296-331 | as written, for the live photo "a:b" with its record under "img_a_b": step 1 finds no existing key, and unless its OCR call rejects, the cleanup removes "img_a_b" |
| Gallery.LiveRecordKept | App.js:296-331 | as intended, for the same photo and store: "img_a_b" is existing, the record is loaded under "a:b" whatever the OCR answers, and the store is left as it was |
| Gallery.ColonClassifiedIntended | App.js:296-327 | as intended, "img_a_b" is existing and not obsolete for the live photo "a:b", and step 2 has no URI to process |
| Gallery.IndexWords | App.js:260-262 | inserting one block's words adds exactly those words tagged with the URI |
| Gallery.IndexBlocks | App.js:258-263 | the handlers' nested loops add exactly the words of all blocks, tagged with the URI |
| Gallery.AnswersAreIndexed | App.js:152-156 | every search answer has recognised text, and every photo with a word starting with the term is answered |
| Gallery.App.constructor | App.js:136-143 | the component starts with no photos, no text, no results, an empty trie, and the store as persisted |
| Gallery.App.AllKeys | App.js:215 | `getAllKeys` lists every stored key exactly once |
| Gallery.App.Learn | App.js:192-203 | records the blocks under the URI and adds exactly their words to the index, keeping it covering the text |
| Gallery.App.HandleNewPhoto | App.js:247-280 | a rejected OCR call throws and changes nothing; a null or empty result returns false and changes nothing; otherwise it returns true, records the blocks, indexes their words and stores the record under the URI's key |
| Gallery.App.HandlePhotoWithExistingData | App.js:172-212 | a value without blocks changes nothing; otherwise it records and indexes the blocks under the URI and appends the URI unless already shown |
| Gallery.App.LoadStoredPhotos | App.js:214-236 | returns the key listing used; leaves the store alone, merges exactly the loaded blocks into `ocrData` and their words into the trie, and appends the loaded URIs in key order without duplicates (`Loaded`) |
| Gallery.App.LoadExisting | App.js:300-310 | step 1 hands every record read, in order, to handlePhotoWithExistingData and leaves the store alone |
| Gallery.App.ProcessNew | App.js:317-322 | step 2 records the photos before the first rejected OCR call, writes their records, and stops early exactly when a call rejects |
| Gallery.App.RemoveObsolete | App.js:329-331 | removes exactly the obsolete keys and leaves every other key and all other state alone |
| Gallery.App.Reconcile | App.js:300-331 | step 1, step 2 and the cleanup of the given obsolete keys compose into `Reconciled`; a rejected OCR call skips the cleanup; a stored 'test' key among the obsolete keys is gone when no OCR call rejects, and one not stored stays absent |
| Gallery.App.FetchPhotos | App.js:282-337 | returns the key listing used; a failed enumeration changes nothing; otherwise the photos, text, index and store are those `Fetched` gives for the code as written; the 'test' key is gone when the photos lack the URI 'test' and no OCR call rejects |
| Gallery.App.FetchPhotosIntended | App.js:282-337 | the same through `FetchedIntended`, with the intended key classification, step 1 and step 2; the 'test' key is gone whenever the enumeration succeeds and no OCR call rejects, whatever the photos' URIs |
| Gallery.App.Search | App.js:152-159 | a blank term clears the results; otherwise the results have no duplicates, hold exactly the URIs the trie has under a word starting with the trimmed, lower-cased term, have recognised text, and include every photo with a matching word |
| Gallery.App.RunSearch | App.js:50-56 | a blank term leaves the results alone; otherwise they become the trie's answer for the lower-cased term |
| Gallery.App.InitializeApp | App.js:63-73 | returns the three key listings used; the final photos, text, index and store are those of writing 'test', the first fetch when permission is granted, loadStoredPhotos and the second fetch, applied in turn, each fetch with its own OCR answers; the search results are unchanged; the index keeps covering the text; the 'test' key is gone when the last enumeration succeeds without 'test' and none of the second fetch's OCR calls rejects |

## Left out

- Rendering, the modal, the sort toggle, `failedImages` and `isLoading` are left out: they are UI state that no modelled operation reads.
- `setNeedsResearch` and the `[searchTerm, needsResearch]` effect are left out: they only re-run `runSearch`, which `RunSearch` models.
- The `trieUpdatedRef` block (App.js:161-169) is left out: the flag is never set to true, so the block never runs.
- `unstable_batchedUpdates` and React's deferred state updates are modelled as immediate field writes. Concurrency is not modelled, because every operation is sequential in the model:
  - the `fetchPhotos` calls that `requestPhotoPermission` (App.js:46) and line 70 start without awaiting them;
  - `InitializeApp` runs them one after the other, each to its end.
- The mount effect's `fetchPhotos` (App.js:148-150) is not part of `InitializeApp`. It starts concurrently with `initializeApp`, so no order of whole operations models it; a caller can run `FetchPhotos` before `InitializeApp` to model it finishing first.
- `CameraRoll.getPhotos` and its `first: 500` cap are not modelled: the enumeration is an input.
- The platform check and the permission dialog (App.js:26-47) are not modelled: the permission answer is an input, and `InitializeApp` runs the first fetch when it is true.
- `RNTextDetector.detectFromUri` is not modelled: it is a function parameter: `detect` in the fetch operations, and `detect1` and `detect2` for the two fetches of `InitializeApp`, because each run calls it afresh. The geometry and confidence of text blocks are dropped, because App.js reads only `text`.
- `JSON.parse`/`JSON.stringify` are not modelled: a stored value is the datatype `Stored`.
  - An object with an `ocrData` array is `Record` when its `uri` is a string and `UriLessRecord` otherwise.
  - A value that is neither such an object nor a bare array is `OtherJson`.
  - The 'test' value and empty or malformed text are `Unreadable`.
- Failures of `AsyncStorage.getItem`, `setItem` and `removeItem` are not modelled: the store is an in-memory map whose operations always succeed. The `catch` blocks that swallow their errors are therefore never entered.
- Gallery.App.AllKeys: the order of `getAllKeys` is left unconstrained. The contract states only that it lists each key once, because AsyncStorage does not promise an order.
- PrefixIndex.Trie.SearchWithPrefix: the order of the results (JavaScript property order of `children`) is not stated. The contract gives the set of URIs and the absence of duplicates.
- Text.Lower, Text.LowerChar: `toLowerCase` is modelled on ASCII letters only; other characters are left unchanged.
- Strings are sequences of characters throughout: JavaScript's UTF-16 code units and surrogate pairs are not modelled. This affects every member that walks a string character by character. `Text.SplitOn` and `Text.SplitWhitespace` are affected. So are `StorageKeys.Sanitize` and `StorageKeys.GenerateStorageKey`, where `/\W/g` turns a character outside the Basic Multilingual Plane into "__" but the model gives "_". The trie's per-character paths (`PrefixIndex.Trie.Insert`, `PrefixIndex.Trie.SearchWithPrefix`, App.js:94, 110) are affected in the same way.
- Gallery.App.LoadExisting: a bare array of blocks, or an `ocrData` object without a string `uri` (`UriLessRecord`), read in step 1 is skipped. In the source, `imageData.uri` is then not a string URI, and the blocks are recorded under it (under `undefined` when it is missing).
- Text blocks whose `text` is not a string are not modelled: `TextBlock.text` is always a string. In the source, `textBlock.text.toLowerCase()` (App.js:197, 259) would throw part-way, after `setOcrData` has run (App.js:193, 252) and after the earlier blocks' words are inserted. loadStoredPhotos would catch it at App.js:229 without appending the photo. Step 1 would catch it at App.js:309. In handleNewPhoto it would reject and end fetchPhotos before the cleanup, like a rejected OCR call.
- Gallery.App.InitializeApp: the `getItem('test')` read (App.js:66) is left out, because its value is never used.
- VisionAPI.js is not part of this model: it is an image-picker component with no logic of its own.

## Findings

| source | as written | input that shows it | evidently intended | confidence | as-written member | corrected member |
|---|---|---|---|---|---|---|
| App.js:296-315 | `existingPhotos` holds storage keys. Step 1 runs each key through `generateStorageKey` again (line 303), so it reads `img_img_…`, which does not exist. Step 2 compares live URIs against keys (line 314), so no live photo is ever recognised as stored. | Live photo "a/b" with its record stored under "img_a_b": step 1 reads "img_img_a_b" and loads nothing, and step 2 sends "a/b" to OCR again. | Step 1 reads each existing key itself. Step 2 skips a live URI whose key is among the existing keys. For a key-safe URI a cached photo is then loaded from the store and not recognised again; for other URIs this also needs the corrected key classification of the next row. | not executed | Gallery.StoredPhotoReprocessed, Gallery.StepOneReadsNothing, Gallery.StepTwoRedoesAll, Gallery.App.FetchPhotos | Gallery.App.FetchPhotosIntended, Gallery.NewPhotoUrisIntended, Gallery.IntendedSkipsStored, Gallery.IntendedReadsStored |
| App.js:325-331 | The keys are classed by decoding them (lines 296-298 and 325-327). A URI that is not key-safe does not come back from its key (App.js:22-24), so the key of such a live photo is never existing and is always obsolete. Step 2 sends the photo to OCR and writes its record again, and the cleanup then deletes that record. | Live photo "a:b" with its record under "img_a_b", which decodes to "a/b": step 1 skips the key, step 2 sends "a:b" to OCR again, and the cleanup removes "img_a_b". Photo URIs with a scheme (`file://…`) contain ':'. | A stored key is existing when it is the key of a live URI and obsolete when it is the key of none. The record of every live photo then survives the cleanup and is read back by step 1. | not executed | Gallery.LiveRecordDeleted, Gallery.ObsoleteKeys, Gallery.App.FetchPhotos | Gallery.ExistingKeysIntended, Gallery.ObsoleteKeysIntended, Gallery.IntendedKeepsLiveKeys, Gallery.LiveRecordKept, Gallery.App.FetchPhotosIntended |

`FetchPhotos`, and `InitializeApp` which calls it, keep the behaviour of
the code as written. `FetchPhotosIntended` is the corrected operation. It
shares step 1, step 2 and the cleanup with `FetchPhotos` through
`Reconcile`, and differs only in the keys step 1 reads, the URIs step 2
sends to OCR and the keys the cleanup removes. Its keys are classed by
comparing them with the keys of the live URIs, not by decoding them, so it
also keeps the records of live photos whose URIs are not key-safe.
