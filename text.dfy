/** Text handling that App.js applies to recognised text and to search terms:
    JavaScript whitespace, lower-casing, trimming, and the two kinds of split
    (`split(' ')` inside the trie and `split(/\s+/)` in the photo handlers). */
module Text {

  /** One block of recognised text. The OCR service attaches geometry and
      confidence to each block; App.js reads only `text`. */
  datatype TextBlock = TextBlock(text: string)

  /** The characters JavaScript's `\s` matches, which are also those that
      `String.prototype.trim` removes: the WhiteSpace and LineTerminator
      characters of ECMA-262. */
  predicate IsSpace(c: char)
  {
    || c == ' ' || c == '\t' || c == '\n' || c == '\U{000B}' || c == '\U{000C}' || c == '\r'
    || c == '\U{00A0}' || c == '\U{1680}' || ('\U{2000}' <= c <= '\U{200A}')
    || c == '\U{2028}' || c == '\U{2029}' || c == '\U{202F}' || c == '\U{205F}'
    || c == '\U{3000}' || c == '\U{FEFF}'
  }

  predicate IsUpper(c: char)
  {
    'A' <= c <= 'Z'
  }

  function LowerChar(c: char): (d: char)
    ensures !IsUpper(d)
    ensures IsSpace(d) <==> IsSpace(c)
    ensures IsUpper(c) ==> d as int == c as int + 32
    ensures !IsUpper(c) ==> d == c
  {
    if IsUpper(c) then (c as int + 32) as char else c
  }

  /** `toLowerCase`, on the ASCII letters. */
  function Lower(s: string): (r: string)
    ensures |r| == |s|
    ensures forall i | 0 <= i < |s| :: r[i] == LowerChar(s[i])
    ensures forall c | c in r :: !IsUpper(c)
  {
    seq(|s|, i requires 0 <= i < |s| => LowerChar(s[i]))
  }

  /** Lower-casing twice is lower-casing once, so terms that differ only in the
      case of their letters reach the same trie path. */
  lemma LowerIdempotent(s: string)
    ensures Lower(Lower(s)) == Lower(s)
  {
  }

  lemma LowerOfLowercase(s: string)
    requires forall c | c in s :: !IsUpper(c)
    ensures Lower(s) == s
  {
  }

  /** `s.trim()`: drops the leading whitespace, then the trailing. */
  function TrimStart(s: string): (r: string)
    ensures |r| <= |s| && forall i | 0 <= i < |r| :: r[i] == s[|s| - |r| + i]
    ensures r == [] || !IsSpace(r[0])
    ensures forall i | 0 <= i < |s| - |r| :: IsSpace(s[i])
  {
    if s != [] && IsSpace(s[0]) then
      var r := TrimStart(s[1..]);
      assert forall i | 0 <= i < |r| :: r[i] == s[|s| - |r| + i];
      r
    else s
  }

  function TrimEnd(s: string): (r: string)
    ensures |r| <= |s| && forall i | 0 <= i < |r| :: r[i] == s[i]
    ensures r == [] || !IsSpace(r[|r| - 1])
    ensures forall i | |r| <= i < |s| :: IsSpace(s[i])
  {
    if s != [] && IsSpace(s[|s| - 1]) then
      var r := TrimEnd(s[..|s| - 1]);
      assert forall i | 0 <= i < |r| :: r[i] == s[i];
      r
    else s
  }

  /** `r` is the slice of `s` starting at `k`, and everything of `s` before and
      after that slice is whitespace. */
  predicate TrimmedAt(s: string, k: int, r: string)
  {
    && 0 <= k <= |s| - |r|
    && s[k..k + |r|] == r
    && (forall i | 0 <= i < k :: IsSpace(s[i]))
    && (forall i | k + |r| <= i < |s| :: IsSpace(s[i]))
  }

  /** `s.trim()`: neither starts nor ends with whitespace; TrimSlice shows it
      is the slice of `s` outside which there is only whitespace. */
  function Trim(s: string): (r: string)
    ensures |r| <= |s|
    ensures r == [] || (!IsSpace(r[0]) && !IsSpace(r[|r| - 1]))
  {
    TrimEnd(TrimStart(s))
  }

  lemma TrimSlice(s: string)
    ensures exists k :: TrimmedAt(s, k, Trim(s))
    ensures Trim(s) == [] <==> forall c | c in s :: IsSpace(c)
  {
    TrimmedAtStart(s);
    if Trim(s) == [] {
      var k := |s| - |TrimStart(s)|;
      forall c | c in s ensures IsSpace(c) {
        var i :| 0 <= i < |s| && s[i] == c;
        assert i < k || k <= i;
      }
    }
  }

  lemma TrimmedAtStart(s: string)
    ensures TrimmedAt(s, |s| - |TrimStart(s)|, Trim(s))
  {
    TrimIsSlice(s);
    TrimLeavesSpace(s);
  }

  lemma TrimIsSlice(s: string)
    ensures var k := |s| - |TrimStart(s)|; s[k..k + |Trim(s)|] == Trim(s)
  {
    var t := TrimStart(s);
    var r := TrimEnd(t);
    var k := |s| - |t|;
    TrimStartSuffix(s);
    TrimEndPrefix(t);
    SliceOfSuffix(s, k, |r|);
  }

  lemma SliceOfSuffix<T>(s: seq<T>, k: nat, n: nat)
    requires k + n <= |s|
    ensures s[k..][..n] == s[k..k + n]
  {
  }

  lemma TrimLeavesSpace(s: string)
    ensures forall i | |s| - |TrimStart(s)| + |Trim(s)| <= i < |s| :: IsSpace(s[i])
  {
    var t := TrimStart(s);
    var r := TrimEnd(t);
    var k := |s| - |t|;
    TrimStartSuffix(s);
    HoldsAfter(s, k, |r|, IsSpace);
  }

  /** What holds of every element of `s[k..]` from index `m` on holds of
      every element of `s` from index `k + m` on. */
  lemma HoldsAfter<T>(s: seq<T>, k: nat, m: nat, P: T -> bool)
    requires k <= |s| && forall j | m <= j < |s| - k :: P(s[k..][j])
    ensures forall i | k + m <= i < |s| :: P(s[i])
  {
    forall i | k + m <= i < |s| ensures P(s[i]) {
      assert s[k..][i - k] == s[i];
    }
  }

  lemma TrimStartSuffix(s: string)
    ensures TrimStart(s) == s[|s| - |TrimStart(s)|..]
  {
  }

  lemma TrimEndPrefix(s: string)
    ensures TrimEnd(s) == s[..|TrimEnd(s)|]
  {
  }

  /** `s.split(sep)` for a one-character separator: the pieces between
      separators, an empty piece wherever two separators meet or `s` starts or
      ends with one, and `[""]` for the empty string. */
  function SplitOn(s: string, sep: char): (r: seq<string>)
    ensures |r| >= 1
    ensures forall w | w in r :: sep !in w
  {
    if s == [] then [""]
    else
      var rest := SplitOn(s[1..], sep);
      if s[0] == sep then [""] + rest
      else [[s[0]] + rest[0]] + rest[1..]
  }

  /** `words.join(sep)`, the inverse of SplitOn. */
  function JoinWith(words: seq<string>, sep: char): string
  {
    if words == [] then ""
    else if |words| == 1 then words[0]
    else words[0] + [sep] + JoinWith(words[1..], sep)
  }

  lemma {:induction false} JoinSplit(s: string, sep: char)
    ensures JoinWith(SplitOn(s, sep), sep) == s
    decreases |s|
  {
    if s != [] {
      var rest := SplitOn(s[1..], sep);
      JoinSplit(s[1..], sep);
      if s[0] == sep {
        assert SplitOn(s, sep) == [""] + rest;
        assert ([""] + rest)[1..] == rest;
      } else {
        var r := [[s[0]] + rest[0]] + rest[1..];
        assert SplitOn(s, sep) == r;
        if |rest| == 1 {
          assert JoinWith(rest, sep) == rest[0];
        } else {
          assert r[1..] == rest[1..];
          assert JoinWith(rest, sep) == rest[0] + [sep] + JoinWith(rest[1..], sep);
        }
      }
    }
  }

  lemma {:induction false} SplitJoin(words: seq<string>, sep: char)
    requires |words| >= 1
    requires forall w | w in words :: sep !in w
    ensures SplitOn(JoinWith(words, sep), sep) == words
    decreases |words|
  {
    if |words| == 1 {
      SplitWithoutSeparator(words[0], sep);
    } else {
      SplitJoin(words[1..], sep);
      SplitAppend(words[0], JoinWith(words[1..], sep), sep);
      assert [words[0]] + words[1..] == words;
    }
  }

  /** A string that holds no separator splits into itself alone; this is what
      `trie.insert(word, uri)` sees, since its callers split on whitespace first. */
  lemma {:induction false} SplitWithoutSeparator(s: string, sep: char)
    requires sep !in s
    ensures SplitOn(s, sep) == [s]
    decreases |s|
  {
    if s != [] {
      SplitWithoutSeparator(s[1..], sep);
      assert [s[0]] + s[1..] == s;
    }
  }

  lemma {:induction false} SplitAppend(w: string, t: string, sep: char)
    requires sep !in w
    ensures SplitOn(w + [sep] + t, sep) == [w] + SplitOn(t, sep)
    decreases |w|
  {
    if w == [] {
      assert w + [sep] + t == [sep] + t;
      assert ([sep] + t)[1..] == t;
    } else {
      SplitAppend(w[1..], t, sep);
      var s := w + [sep] + t;
      assert s[0] == w[0] && s[1..] == w[1..] + [sep] + t;
      assert [w[0]] + w[1..] == w;
    }
  }

  /** `s.split(/\s+/)`: every maximal run of whitespace separates two words, so
      leading or trailing whitespace yields an empty first or last word and
      `""` yields `[""]`. */
  function SplitWhitespace(s: string): (r: seq<string>)
    ensures |r| >= 1
    ensures forall w | w in r :: forall c | c in w :: !IsSpace(c)
    ensures s == [] ==> r == [""]
    ensures s != [] && !IsSpace(s[0]) ==> r[0] != []
    ensures forall k | 0 < k < |r| - 1 :: r[k] != []
    decreases |s|
  {
    if s == [] then [""]
    else if IsSpace(s[0]) then
      if |s| > 1 && IsSpace(s[1]) then SplitWhitespace(s[1..])
      else [""] + SplitWhitespace(s[1..])
    else
      var rest := SplitWhitespace(s[1..]);
      var first := [s[0]] + rest[0];
      assert forall c | c in first :: !IsSpace(c) by {
        assert rest[0] in rest;
      }
      assert forall w | w in rest[1..] :: w in rest;
      [first] + rest[1..]
  }

  function NonSpace(s: string): string
  {
    if s == [] then [] else (if IsSpace(s[0]) then [] else [s[0]]) + NonSpace(s[1..])
  }

  function Concat(words: seq<string>): string
  {
    if words == [] then [] else words[0] + Concat(words[1..])
  }

  /** Splitting on whitespace loses exactly the whitespace: the words, put back
      together, are the non-whitespace characters of `s` in order. */
  lemma {:induction false} SplitWhitespaceKeepsText(s: string)
    ensures Concat(SplitWhitespace(s)) == NonSpace(s)
    decreases |s|
  {
    if s != [] {
      SplitWhitespaceKeepsText(s[1..]);
      var rest := SplitWhitespace(s[1..]);
      if IsSpace(s[0]) {
        if !(|s| > 1 && IsSpace(s[1])) {
          assert ([""] + rest)[1..] == rest;
        }
      } else {
        var r := [[s[0]] + rest[0]] + rest[1..];
        assert r[1..] == rest[1..];
        assert Concat(rest) == rest[0] + Concat(rest[1..]);
      }
    }
  }

  predicate NoSpaceIn(w: string)
  {
    forall c | c in w :: !IsSpace(c)
  }

  /** A run of whitespace that is followed by a non-space or by the end. */
  predicate RunBefore(run: string, t: string)
  {
    run != [] && (forall c | c in run :: IsSpace(c)) && (t == [] || !IsSpace(t[0]))
  }

  /** Text without whitespace is a single word. */
  lemma {:induction false} SplitWhitespaceWord(w: string)
    requires NoSpaceIn(w)
    ensures SplitWhitespace(w) == [w]
    decreases |w|
  {
    if w != [] {
      assert w[0] in w;
      SplitWhitespaceWord(w[1..]);
      assert [w[0]] + w[1..] == w;
    }
  }

  /** Leading whitespace, however long the run, yields one empty first word. */
  lemma {:induction false} SplitWhitespaceRun(run: string, t: string)
    requires RunBefore(run, t)
    ensures SplitWhitespace(run + t) == [""] + SplitWhitespace(t)
    decreases |run|
  {
    var s := run + t;
    assert run[0] in run;
    assert s[0] == run[0] && s[1..] == run[1..] + t;
    if |run| > 1 {
      assert run[1] in run;
      SplitWhitespaceRun(run[1..], t);
    } else {
      assert s[1..] == t;
    }
  }

  /** A word followed by a maximal run of whitespace is one piece, whatever
      the length of the run; with nothing after the run, the last piece is
      empty. Together with SplitWhitespaceWord this fixes every piece. */
  lemma {:induction false} SplitWhitespaceAppend(w: string, run: string, t: string)
    requires NoSpaceIn(w) && RunBefore(run, t)
    ensures SplitWhitespace(w + run + t) == [w] + SplitWhitespace(t)
    decreases |w|
  {
    if w == [] {
      assert w + run + t == run + t;
      SplitWhitespaceRun(run, t);
    } else {
      assert w[0] in w;
      SplitWhitespaceAppend(w[1..], run, t);
      var s := w + run + t;
      assert s[0] == w[0] && s[1..] == w[1..] + run + t;
      assert [w[0]] + w[1..] == w;
    }
  }

  /** Splitting words joined by single spaces gives the words back, when no
      word holds whitespace and only the first and last may be empty. */
  lemma {:induction false} SplitWhitespaceJoin(words: seq<string>)
    requires |words| >= 1
    requires forall w | w in words :: NoSpaceIn(w)
    requires forall k | 0 < k < |words| - 1 :: words[k] != []
    ensures SplitWhitespace(JoinWith(words, ' ')) == words
    decreases |words|
  {
    assert words[0] in words;
    if |words| == 1 {
      SplitWhitespaceWord(words[0]);
    } else {
      var rest := words[1..];
      var t := JoinWith(rest, ' ');
      assert forall w | w in rest :: w in words;
      SplitWhitespaceJoin(rest);
      assert rest[0] in words;
      if |rest| > 1 {
        assert t == rest[0] + [' '] + JoinWith(rest[1..], ' ');
        assert rest[0] != [] && t[0] == rest[0][0];
        assert rest[0][0] in rest[0];
      } else if t != [] {
        assert t[0] in rest[0];
      }
      assert RunBefore([' '], t);
      SplitWhitespaceAppend(words[0], [' '], t);
      assert [words[0]] + rest == words;
    }
  }

  /** The words App.js takes from a block: its text lower-cased, split on
      whitespace. */
  function BlockWords(block: TextBlock): (r: seq<string>)
    ensures |r| >= 1
    ensures forall w | w in r :: ' ' !in w && forall c | c in w :: !IsUpper(c)
  {
    BlockWordsShape(block.text);
    SplitWhitespace(Lower(block.text))
  }

  lemma BlockWordsShape(text: string)
    ensures forall w | w in SplitWhitespace(Lower(text)) :: ' ' !in w && forall c | c in w :: !IsUpper(c)
  {
    assert IsSpace(' ');
    forall w | w in SplitWhitespace(Lower(text)) ensures forall c | c in w :: !IsUpper(c) {
      WordCharsFromText(Lower(text), w);
    }
  }

  lemma WordCharsFromText(s: string, w: string)
    requires w in SplitWhitespace(s)
    ensures forall c | c in w :: c in s
    decreases |s|
  {
    if s != [] {
      var rest := SplitWhitespace(s[1..]);
      if IsSpace(s[0]) {
        if |s| > 1 && IsSpace(s[1]) {
          WordCharsFromText(s[1..], w);
        } else if w != "" {
          assert w in rest;
          WordCharsFromText(s[1..], w);
        }
      } else {
        if w == [s[0]] + rest[0] {
          WordCharsFromText(s[1..], rest[0]);
        } else {
          assert w in rest;
          WordCharsFromText(s[1..], w);
        }
      }
    }
  }

  /** Every word the photo handlers hand to the trie for a list of blocks, in
      the order the two nested `forEach` loops insert them. */
  function BlocksWords(blocks: seq<TextBlock>): (r: seq<string>)
    ensures forall w | w in r :: ' ' !in w
  {
    if blocks == [] then [] else BlocksWords(blocks[..|blocks| - 1]) + BlockWords(blocks[|blocks| - 1])
  }

  /** A word is handed to the trie exactly when some block yields it. */
  lemma {:induction false} BlocksWordsFromBlocks(blocks: seq<TextBlock>, w: string)
    ensures w in BlocksWords(blocks) <==> exists k | 0 <= k < |blocks| :: w in BlockWords(blocks[k])
  {
    if blocks != [] {
      var n := |blocks| - 1;
      var init, last := blocks[..n], blocks[n];
      BlocksWordsFromBlocks(init, w);
      assert BlocksWords(blocks) == BlocksWords(init) + BlockWords(last);
      if w in BlocksWords(init) {
        var k :| 0 <= k < |init| && w in BlockWords(init[k]);
        assert init[k] == blocks[k];
      } else if w in BlockWords(last) {
        assert w in BlockWords(blocks[n]);
      } else {
        forall k | 0 <= k < |blocks| ensures w !in BlockWords(blocks[k]) {
          if k < n {
            assert init[k] == blocks[k];
          }
        }
      }
    }
  }

  /** `haystack.includes(needle)`. */
  predicate Includes(haystack: string, needle: string)
  {
    exists i | 0 <= i <= |haystack| :: OccursAt(haystack, needle, i)
  }

  predicate OccursAt(haystack: string, needle: string, i: int)
  {
    0 <= i <= |haystack| - |needle| && haystack[i..i + |needle|] == needle
  }

  /** imageContainsTerm: true when some block's lower-cased text contains the
      trimmed, lower-cased term; the loop returns at the first such block. */
  method ImageContainsTerm(textRecognition: seq<TextBlock>, term: string) returns (found: bool)
    ensures found <==> exists k | 0 <= k < |textRecognition| ::
                         Includes(Lower(textRecognition[k].text), Lower(Trim(term)))
  {
    var searchText := Lower(Trim(term));
    for k := 0 to |textRecognition|
      invariant forall j | 0 <= j < k :: !Includes(Lower(textRecognition[j].text), searchText)
    {
      if Includes(Lower(textRecognition[k].text), searchText) {
        return true;
      }
    }
    return false;
  }
}
