/** The prefix index of App.js: a character trie whose nodes carry the set of
    image URIs whose recognised words end at that node. */
module PrefixIndex {
  import opened Text

  /** The URIs a prefix query must answer for the (word, uri) pairs inserted so
      far: every URI inserted under a word that starts with `prefix`. */
  function Lookup(pairs: set<(string, string)>, prefix: string): set<string>
  {
    set e | e in pairs && prefix <= e.0 :: e.1
  }

  function Elems(s: seq<string>): set<string>
  {
    set x | x in s
  }

  predicate NoDuplicates(s: seq<string>)
  {
    forall i, j | 0 <= i < j < |s| :: s[i] != s[j]
  }

  lemma ElemsAppend(a: seq<string>, b: seq<string>)
    ensures Elems(a + b) == Elems(a) + Elems(b)
  {
    assert forall x :: x in a + b <==> x in a || x in b;
  }

  lemma NoDuplicatesAppend(a: seq<string>, b: seq<string>)
    requires NoDuplicates(a) && NoDuplicates(b) && Elems(a) !! Elems(b)
    ensures NoDuplicates(a + b)
  {
    forall i, j | 0 <= i < j < |a + b| ensures (a + b)[i] != (a + b)[j] {
      if j < |a| {
        assert (a + b)[i] == a[i] && (a + b)[j] == a[j];
      } else if i < |a| {
        assert (a + b)[i] in Elems(a) && (a + b)[j] == b[j - |a|] && b[j - |a|] in Elems(b);
      } else {
        assert (a + b)[i] == b[i - |a|] && (a + b)[j] == b[j - |a|];
      }
    }
  }

  lemma AppendInjective(w: string, c: char, v: string, d: char)
    requires w + [c] == v + [d]
    ensures w == v && c == d
  {
    assert |w| == |v|;
    assert w == (w + [c])[..|w|];
    assert v == (v + [d])[..|v|];
  }

  class TrieNode {
    var children: map<char, TrieNode>
    var isEndOfWord: bool
    var data: set<string>

    constructor ()
      ensures children == map[] && !isEndOfWord && data == {}
    {
      children := map[];
      isEndOfWord := false;
      data := {};
    }
  }

  /** What the proofs track about one node: the path that spells it, its
      children and its URIs. */
  datatype Info = Info(path: string, kids: map<char, TrieNode>, data: set<string>)

  /** Each node knows its own path, so distinct paths lead to distinct nodes. */
  ghost predicate PathsKnown(at: map<string, TrieNode>, info: map<TrieNode, Info>)
  {
    forall w {:trigger at[w]} | w in at :: at[w] in info && info[at[w]].path == w
  }

  /** A child under `c` is the node of the path one `c` longer. */
  ghost predicate ChildLinks(at: map<string, TrieNode>, info: map<TrieNode, Info>)
    requires PathsKnown(at, info)
  {
    forall w, c {:trigger c in info[at[w]].kids} | w in at && c in info[at[w]].kids ::
      w + [c] in at && info[at[w]].kids[c] == at[w + [c]]
  }

  /** Every node but the root hangs below the node of its path minus the last character. */
  ghost predicate ParentLinks(at: map<string, TrieNode>, info: map<TrieNode, Info>)
    requires PathsKnown(at, info)
  {
    forall w, c {:trigger w + [c] in at} | w + [c] in at :: w in at && c in info[at[w]].kids
  }

  /** A node's data holds exactly the URIs inserted under its path. */
  ghost predicate DataExact(at: map<string, TrieNode>, info: map<TrieNode, Info>, contents: set<(string, string)>)
    requires PathsKnown(at, info)
  {
    && (forall e {:trigger e in contents} | e in contents :: e.0 in at && e.1 in info[at[e.0]].data)
    && (forall w, u {:trigger u in info[at[w]].data} | w in at && u in info[at[w]].data :: (w, u) in contents)
  }

  /** The shape of a trie, stated over ghost values: `at` gives the node
      reached from the root by spelling each path, `info` what each node
      holds, `contents` the (word, uri) pairs inserted so far. */
  ghost predicate Shaped(root: TrieNode, at: map<string, TrieNode>, info: map<TrieNode, Info>,
                         contents: set<(string, string)>)
  {
    && "" in at && at[""] == root
    && PathsKnown(at, info)
    && ChildLinks(at, info)
    && ParentLinks(at, info)
    && DataExact(at, info, contents)
  }

  /** The paths of a trie are closed under prefixes. */
  lemma {:induction false} PrefixInTrie(root: TrieNode, at: map<string, TrieNode>, info: map<TrieNode, Info>,
                                        contents: set<(string, string)>, w: string, p: string)
    requires Shaped(root, at, info, contents) && w in at && p <= w
    ensures p in at
    decreases |w|
  {
    if |p| < |w| {
      var parent := w[..|w| - 1];
      assert parent + [w[|w| - 1]] in at by {
        assert w == parent + [w[|w| - 1]];
      }
      assert p <= parent;
      PrefixInTrie(root, at, info, contents, parent, p);
    } else {
      assert p == w;
    }
  }

  /** The ghost picture after `node.children[ch] = new TrieNode()`. */
  ghost function GrownAt(at: map<string, TrieNode>, path: string, ch: char, child: TrieNode): map<string, TrieNode>
  {
    at[path + [ch] := child]
  }

  ghost function GrownInfo(info: map<TrieNode, Info>, node: TrieNode, path: string, ch: char, child: TrieNode): map<TrieNode, Info>
    requires node in info
  {
    info[node := info[node].(kids := info[node].kids[ch := child])][child := Info(path + [ch], map[], {})]
  }

  lemma GrowPathsKnown(root: TrieNode, at: map<string, TrieNode>, info: map<TrieNode, Info>,
                       contents: set<(string, string)>, path: string, ch: char, child: TrieNode)
    requires Shaped(root, at, info, contents)
    requires path in at && ch !in info[at[path]].kids && child !in info
    ensures path + [ch] !in at
    ensures PathsKnown(GrownAt(at, path, ch, child), GrownInfo(info, at[path], path, ch, child))
  {
    var at', info' := GrownAt(at, path, ch, child), GrownInfo(info, at[path], path, ch, child);
    forall w | w in at' ensures at'[w] in info' && info'[at'[w]].path == w {
      if w != path + [ch] {
        assert at[w] in info && at[w] != child;
      }
    }
  }

  lemma GrowChildLinks(root: TrieNode, at: map<string, TrieNode>, info: map<TrieNode, Info>,
                       contents: set<(string, string)>, path: string, ch: char, child: TrieNode)
    requires Shaped(root, at, info, contents)
    requires path in at && ch !in info[at[path]].kids && child !in info
    requires PathsKnown(GrownAt(at, path, ch, child), GrownInfo(info, at[path], path, ch, child))
    ensures ChildLinks(GrownAt(at, path, ch, child), GrownInfo(info, at[path], path, ch, child))
  {
    var at', info' := GrownAt(at, path, ch, child), GrownInfo(info, at[path], path, ch, child);
    forall w, c | w in at' && c in info'[at'[w]].kids
      ensures w + [c] in at' && info'[at'[w]].kids[c] == at'[w + [c]]
    {
      if w != path + [ch] && c in info[at[w]].kids {
        assert w + [c] in at;
        if w + [c] == path + [ch] {
          AppendInjective(w, c, path, ch);
        }
      }
    }
  }

  lemma GrowParentLinks(root: TrieNode, at: map<string, TrieNode>, info: map<TrieNode, Info>,
                        contents: set<(string, string)>, path: string, ch: char, child: TrieNode)
    requires Shaped(root, at, info, contents)
    requires path in at && ch !in info[at[path]].kids && child !in info
    requires PathsKnown(GrownAt(at, path, ch, child), GrownInfo(info, at[path], path, ch, child))
    ensures ParentLinks(GrownAt(at, path, ch, child), GrownInfo(info, at[path], path, ch, child))
  {
    var at', info' := GrownAt(at, path, ch, child), GrownInfo(info, at[path], path, ch, child);
    forall w, c | w + [c] in at'
      ensures w in at' && c in info'[at'[w]].kids
    {
      if w + [c] == path + [ch] {
        AppendInjective(w, c, path, ch);
      }
    }
  }

  lemma GrowDataExact(root: TrieNode, at: map<string, TrieNode>, info: map<TrieNode, Info>,
                      contents: set<(string, string)>, path: string, ch: char, child: TrieNode)
    requires Shaped(root, at, info, contents)
    requires path in at && ch !in info[at[path]].kids && child !in info
    requires PathsKnown(GrownAt(at, path, ch, child), GrownInfo(info, at[path], path, ch, child))
    ensures DataExact(GrownAt(at, path, ch, child), GrownInfo(info, at[path], path, ch, child), contents)
  {
    var at', info' := GrownAt(at, path, ch, child), GrownInfo(info, at[path], path, ch, child);
    forall e | e in contents ensures e.0 in at' && e.1 in info'[at'[e.0]].data {
      assert e.0 != path + [ch];
    }
  }

  /** Hanging a fresh, empty node one character below an existing path keeps
      the shape and leaves the inserted pairs alone. */
  lemma AddChildShaped(root: TrieNode, at: map<string, TrieNode>, info: map<TrieNode, Info>,
                       contents: set<(string, string)>, path: string, ch: char, child: TrieNode)
    requires Shaped(root, at, info, contents)
    requires path in at && ch !in info[at[path]].kids && child !in info
    ensures Shaped(root, GrownAt(at, path, ch, child), GrownInfo(info, at[path], path, ch, child), contents)
  {
    GrowPathsKnown(root, at, info, contents, path, ch, child);
    GrowChildLinks(root, at, info, contents, path, ch, child);
    GrowParentLinks(root, at, info, contents, path, ch, child);
    GrowDataExact(root, at, info, contents, path, ch, child);
  }

  /** The ghost picture after `node.data.add(uri)`. */
  ghost function MarkedInfo(info: map<TrieNode, Info>, node: TrieNode, uri: string): map<TrieNode, Info>
    requires node in info
  {
    info[node := info[node].(data := info[node].data + {uri})]
  }

  /** Adding `uri` to the data of the node of `word` records the pair (word, uri). */
  lemma AddDataShaped(root: TrieNode, at: map<string, TrieNode>, info: map<TrieNode, Info>,
                      contents: set<(string, string)>, word: string, node: TrieNode, uri: string)
    requires Shaped(root, at, info, contents) && word in at && at[word] == node
    ensures node in info
    ensures Shaped(root, at, MarkedInfo(info, node, uri), contents + {(word, uri)})
  {
  }

  /** No inserted word extends a path whose next character has no child. */
  lemma MissingChildEmpty(root: TrieNode, at: map<string, TrieNode>, info: map<TrieNode, Info>,
                          contents: set<(string, string)>, prefix: string, i: nat)
    requires Shaped(root, at, info, contents)
    requires i < |prefix| && prefix[..i] in at && prefix[i] !in info[at[prefix[..i]]].kids
    ensures Lookup(contents, prefix) == {}
  {
    forall e | e in contents ensures !(prefix <= e.0) {
      if prefix <= e.0 {
        assert prefix[..i] + [prefix[i]] <= e.0 by {
          assert prefix[..i] + [prefix[i]] == prefix[..i + 1];
        }
        PrefixInTrie(root, at, info, contents, e.0, prefix[..i] + [prefix[i]]);
        assert false;
      }
    }
  }

  /** The paths in the subtree below `path`. */
  ghost function Below(at: map<string, TrieNode>, path: string): set<string>
  {
    set w | w in at && path <= w
  }

  lemma BelowShrinks(root: TrieNode, at: map<string, TrieNode>, info: map<TrieNode, Info>,
                     contents: set<(string, string)>, path: string, ch: char)
    requires Shaped(root, at, info, contents) && path in at && ch in info[at[path]].kids
    ensures path + [ch] in at && info[at[path]].kids[ch] == at[path + [ch]]
    ensures Below(at, path + [ch]) < Below(at, path)
  {
    assert path !in Below(at, path + [ch]);
    assert path in Below(at, path);
  }

  /** The URIs inserted under words that extend `path` by a character in `cs`. */
  ghost function LookupVia(contents: set<(string, string)>, path: string, cs: set<char>): set<string>
  {
    set e | e in contents && path < e.0 && e.0[|path|] in cs :: e.1
  }

  lemma LookupViaStep(contents: set<(string, string)>, path: string, done: set<char>, ch: char)
    ensures LookupVia(contents, path, done + {ch}) == LookupVia(contents, path, done) + Lookup(contents, path + [ch])
  {
    forall e | e in contents
      ensures (path < e.0 && e.0[|path|] == ch) <==> path + [ch] <= e.0
    {
      if path + [ch] <= e.0 {
        assert e.0[..|path| + 1] == path + [ch];
      }
      if path < e.0 && e.0[|path|] == ch {
        assert e.0[..|path| + 1] == e.0[..|path|] + [e.0[|path|]];
      }
    }
  }

  /** What lies below a node: its own URIs and those below each child. */
  lemma LookupSplits(root: TrieNode, at: map<string, TrieNode>, info: map<TrieNode, Info>,
                     contents: set<(string, string)>, path: string)
    requires Shaped(root, at, info, contents) && path in at
    ensures Lookup(contents, path) == info[at[path]].data + LookupVia(contents, path, info[at[path]].kids.Keys)
  {
    forall u | u in Lookup(contents, path)
      ensures u in info[at[path]].data + LookupVia(contents, path, info[at[path]].kids.Keys)
    {
      var e :| e in contents && path <= e.0 && e.1 == u;
      if e.0 != path {
        var p := e.0[..|path| + 1];
        assert p <= e.0;
        PrefixInTrie(root, at, info, contents, e.0, p);
        assert path + [e.0[|path|]] in at by {
          assert p == path + [e.0[|path|]];
        }
      }
    }
    forall u | u in info[at[path]].data ensures u in Lookup(contents, path) {
      assert (path, u) in contents;
    }
  }

  /** The pairs that tag each of `words` with `uri`. */
  function Tagged(words: seq<string>, uri: string): (r: set<(string, string)>)
    ensures forall e :: e in r <==> e.1 == uri && e.0 in words
  {
    set w | w in words :: (w, uri)
  }

  lemma TaggedStep(words: seq<string>, k: nat, uri: string)
    requires k < |words|
    ensures Tagged(words[..k + 1], uri) == Tagged(words[..k], uri) + {(words[k], uri)}
  {
    assert words[..k + 1] == words[..k] + [words[k]];
  }

  lemma TaggedAppend(a: seq<string>, b: seq<string>, uri: string)
    ensures Tagged(a + b, uri) == Tagged(a, uri) + Tagged(b, uri)
  {
    assert forall w :: w in a + b <==> w in a || w in b;
  }

  /** Completeness of `insert` followed by `searchWithPrefix`: after a phrase
      is inserted under `uri`, every prefix of every space-separated word of
      the phrase finds `uri`. */
  lemma InsertedIsFound(contents: set<(string, string)>, phrase: string, uri: string, w: string, p: string)
    requires w in SplitOn(phrase, ' ') && p <= w
    ensures uri in Lookup(contents + Tagged(SplitOn(phrase, ' '), uri), p)
  {
    assert (w, uri) in Tagged(SplitOn(phrase, ' '), uri);
  }

  /** Soundness: a prefix finds a URI exactly when the URI was inserted
      under some word that starts with the prefix. */
  lemma LookupSound(contents: set<(string, string)>, p: string, u: string)
    ensures u in Lookup(contents, p) <==> exists w :: (w, u) in contents && p <= w
  {
    if exists w :: (w, u) in contents && p <= w {
      var w :| (w, u) in contents && p <= w;
      assert (w, u).1 == u;
    }
  }

  /** Idempotence: inserting the same phrase under the same URI once more
      does not change what any prefix finds, since node data is a set. */
  lemma InsertIdempotent(contents: set<(string, string)>, phrase: string, uri: string, p: string)
    ensures var once := contents + Tagged(SplitOn(phrase, ' '), uri);
            Lookup(once + Tagged(SplitOn(phrase, ' '), uri), p) == Lookup(once, p)
  {
    var once := contents + Tagged(SplitOn(phrase, ' '), uri);
    assert once + Tagged(SplitOn(phrase, ' '), uri) == once;
  }

  lemma PrefixStep(s: string, i: nat)
    requires i < |s|
    ensures s[..i + 1] == s[..i] + [s[i]]
  {
  }

  class Trie {
    var root: TrieNode

    /** The node reached from the root by spelling each path. */
    ghost var At: map<string, TrieNode>
    /** What each node of the trie holds; its keys are the trie's footprint. */
    ghost var NodeInfo: map<TrieNode, Info>
    /** The (word, uri) pairs inserted so far. */
    ghost var Contents: set<(string, string)>

    ghost predicate Valid()
      reads this, NodeInfo.Keys
    {
      && (forall n {:trigger NodeInfo[n].kids} | n in NodeInfo :: n.children == NodeInfo[n].kids)
      && (forall n {:trigger NodeInfo[n].data} | n in NodeInfo :: n.data == NodeInfo[n].data)
      && Shaped(root, At, NodeInfo, Contents)
    }

    constructor ()
      ensures Valid() && fresh(NodeInfo.Keys) && Contents == {}
    {
      var node := new TrieNode();
      root := node;
      At := map["" := node];
      NodeInfo := map[node := Info("", map[], {})];
      Contents := {};
    }

    /** `currentNode.children[ch] = new TrieNode()`: hangs a fresh, empty node
        one character below the node of `path`. */
    method AddChild(node: TrieNode, ghost path: string, ch: char) returns (child: TrieNode)
      requires Valid() && path in At && At[path] == node && ch !in node.children
      modifies this, node
      ensures Valid() && root == old(root) && Contents == old(Contents)
      ensures fresh(child) && NodeInfo.Keys == old(NodeInfo.Keys) + {child}
      ensures At == old(At)[path + [ch] := child]
      ensures node.children == old(node.children)[ch := child]
    {
      child := new TrieNode();
      AddChildShaped(root, At, NodeInfo, Contents, path, ch, child);
      assert At[path] == node;
      ghost var at' := GrownAt(At, path, ch, child);
      ghost var info' := GrownInfo(NodeInfo, node, path, ch, child);
      node.children := node.children[ch := child];
      At := at';
      NodeInfo := info';
    }

    /** One step of insert's walk: the child of `node` under `ch`, created
        first when it is missing. */
    method Descend(node: TrieNode, ghost path: string, ch: char) returns (child: TrieNode)
      requires Valid() && path in At && At[path] == node
      modifies this, node
      ensures Valid() && root == old(root) && Contents == old(Contents)
      ensures fresh(NodeInfo.Keys - old(NodeInfo.Keys))
      ensures path + [ch] in At && At[path + [ch]] == child
    {
      if ch !in node.children {
        child := AddChild(node, path, ch);
      } else {
        assert ch in NodeInfo[node].kids;
        BelowShrinks(root, At, NodeInfo, Contents, path, ch);
        child := node.children[ch];
      }
    }

    /** `currentNode.isEndOfWord = true; currentNode.data.add(uri)` on the
        node of `word`. */
    method Mark(node: TrieNode, ghost word: string, uri: string)
      requires Valid() && word in At && At[word] == node
      modifies this, node
      ensures Valid() && root == old(root) && NodeInfo.Keys == old(NodeInfo.Keys)
      ensures Contents == old(Contents) + {(word, uri)}
    {
      AddDataShaped(root, At, NodeInfo, Contents, word, node, uri);
      ghost var info' := MarkedInfo(NodeInfo, node, uri);
      node.isEndOfWord := true;
      node.data := node.data + {uri};
      NodeInfo := info';
      Contents := Contents + {(word, uri)};
    }

    /** insert, for one word: walks down from the root one character at a
        time, creating each missing child, and adds `uri` to the last node. */
    method InsertWord(word: string, uri: string)
      requires Valid()
      modifies this, NodeInfo.Keys
      ensures Valid() && fresh(NodeInfo.Keys - old(NodeInfo.Keys)) && root == old(root)
      ensures Contents == old(Contents) + {(word, uri)}
    {
      var currentNode := root;
      for i := 0 to |word|
        invariant Valid() && fresh(NodeInfo.Keys - old(NodeInfo.Keys)) && root == old(root)
        invariant word[..i] in At && currentNode == At[word[..i]]
        invariant Contents == old(Contents)
      {
        PrefixStep(word, i);
        ghost var nodesI := NodeInfo.Keys;
        currentNode := Descend(currentNode, word[..i], word[i]);
        assert fresh(NodeInfo.Keys - nodesI);
        assert fresh(NodeInfo.Keys - old(NodeInfo.Keys));
      }
      assert word[..|word|] == word;
      Mark(currentNode, word, uri);
    }

    /** insert: splits the phrase on ' ' and inserts every piece, the empty
        ones included. */
    method Insert(phrase: string, uri: string)
      requires Valid()
      modifies this, NodeInfo.Keys
      ensures Valid() && fresh(NodeInfo.Keys - old(NodeInfo.Keys)) && root == old(root)
      ensures Contents == old(Contents) + Tagged(SplitOn(phrase, ' '), uri)
    {
      var words := SplitOn(phrase, ' ');
      for k := 0 to |words|
        invariant Valid() && fresh(NodeInfo.Keys - old(NodeInfo.Keys)) && root == old(root)
        invariant Contents == old(Contents) + Tagged(words[..k], uri)
      {
        ghost var nodesK := NodeInfo.Keys;
        InsertWord(words[k], uri);
        assert fresh(NodeInfo.Keys - nodesK);
        assert fresh(NodeInfo.Keys - old(NodeInfo.Keys));
        TaggedStep(words, k, uri);
      }
      assert words[..|words|] == words;
    }

    /** searchWithPrefix: descends one node per prefix character, answering
        [] as soon as a child is missing, then gathers the URIs of the whole
        subtree below the node reached. */
    method SearchWithPrefix(prefix: string) returns (results: seq<string>)
      requires Valid()
      ensures NoDuplicates(results)
      ensures Elems(results) == Lookup(Contents, prefix)
    {
      var currentNode := root;
      for i := 0 to |prefix|
        invariant prefix[..i] in At && currentNode == At[prefix[..i]]
      {
        var ch := prefix[i];
        PrefixStep(prefix, i);
        if ch !in currentNode.children {
          MissingChildEmpty(root, At, NodeInfo, Contents, prefix, i);
          return [];
        }
        BelowShrinks(root, At, NodeInfo, Contents, prefix[..i], ch);
        currentNode := currentNode.children[ch];
      }
      assert prefix[..|prefix|] == prefix;
      results := Gather(currentNode, prefix, []);
    }

    /** gatherData: pushes the URIs of `node` and of every node below it onto
        `arr`, skipping those already there. */
    method Gather(node: TrieNode, ghost path: string, arr: seq<string>) returns (r: seq<string>)
      requires Valid() && path in At && At[path] == node
      requires NoDuplicates(arr)
      ensures NoDuplicates(r) && arr <= r
      ensures Elems(r) == Elems(arr) + Lookup(Contents, path)
      decreases Below(At, path)
    {
      r := PushData(node.data, arr);
      var keys := node.children.Keys;
      ghost var done: set<char> := {};
      while keys != {}
        invariant keys + done == node.children.Keys && keys !! done
        invariant NoDuplicates(r) && arr <= r
        invariant Elems(r) == Elems(arr) + node.data + LookupVia(Contents, path, done)
      {
        var ch :| ch in keys;
        BelowShrinks(root, At, NodeInfo, Contents, path, ch);
        r := Gather(node.children[ch], path + [ch], r);
        LookupViaStep(Contents, path, done, ch);
        done, keys := done + {ch}, keys - {ch};
      }
      LookupSplits(root, At, NodeInfo, Contents, path);
    }
  }

  /** `node.data.forEach(uri => { if (!arr.includes(uri)) arr.push(uri) })`. */
  method PushData(data: set<string>, arr: seq<string>) returns (r: seq<string>)
    requires NoDuplicates(arr)
    ensures NoDuplicates(r) && arr <= r
    ensures Elems(r) == Elems(arr) + data
  {
    r := arr;
    var pending := data;
    while pending != {}
      invariant pending <= data
      invariant NoDuplicates(r) && arr <= r
      invariant Elems(r) == Elems(arr) + (data - pending)
    {
      var uri :| uri in pending;
      if uri !in r {
        assert Elems(r + [uri]) == Elems(r) + {uri};
        r := r + [uri];
      }
      pending := pending - {uri};
    }
  }
}
