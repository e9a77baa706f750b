/** `Trie`: a prefix tree of nested maps keyed by character; the end-of-word
    symbol becomes the `end` flag of a node. */
module Trie {
  import opened Prelude

  datatype Node = Node(children: map<char, Node>, end: bool)

  const Empty := Node(map[], false)

  /** `findNode(str)`: walks one child per character, `null` on a missing edge. */
  function FindNode(t: Node, s: string): (r: Option<Node>)
    ensures |s| == 0 ==> r == Some(t)
    ensures |s| > 0 && s[0] !in t.children ==> r.None?
    decreases |s|
  {
    if |s| == 0 then Some(t)
    else if s[0] !in t.children then None
    else FindNode(t.children[s[0]], s[1..])
  }

  /** `insert(word)`: creates missing nodes along `word` and marks the last one. */
  function Insert(t: Node, word: string): (r: Node)
    ensures r.end == (t.end || |word| == 0)
    ensures |word| > 0 ==> word[0] in r.children
    decreases |word|
  {
    if |word| == 0 then t.(end := true)
    else
      var child := if word[0] in t.children then t.children[word[0]] else Empty;
      t.(children := t.children[word[0] := Insert(child, word[1..])])
  }

  /** `search(word)` */
  predicate Search(t: Node, word: string) {
    var n := FindNode(t, word);
    n.Some? && n.value.end
  }

  /** `startsWith(prefix)` */
  predicate StartsWith(t: Node, prefix: string) {
    FindNode(t, prefix).Some?
  }

  lemma EmptyHasNothing(s: string)
    ensures !Search(Empty, s)
    ensures StartsWith(Empty, s) <==> |s| == 0
  {
  }

  /** After `insert(word)`, exactly `word` and the words found before are found. */
  lemma {:induction false} SearchAfterInsert(t: Node, word: string, w: string)
    ensures Search(Insert(t, word), w) <==> w == word || Search(t, w)
    decreases |word|
  {
    if |word| > 0 && |w| > 0 {
      var c := word[0];
      var child := if c in t.children then t.children[c] else Empty;
      if w[0] == c {
        SearchAfterInsert(child, word[1..], w[1..]);
        EmptyHasNothing(w[1..]);
        assert w == word <==> w[1..] == word[1..] by {
          if w[1..] == word[1..] { assert w == [c] + w[1..] && word == [c] + word[1..]; }
        }
      }
    }
  }

  /** After `insert(word)`, the prefixes found are those of `word` and the ones
      found before. */
  lemma {:induction false} StartsWithAfterInsert(t: Node, word: string, p: string)
    ensures StartsWith(Insert(t, word), p) <==> p <= word || StartsWith(t, p)
    decreases |word|
  {
    if |word| > 0 && |p| > 0 {
      var c := word[0];
      var child := if c in t.children then t.children[c] else Empty;
      if p[0] == c {
        StartsWithAfterInsert(child, word[1..], p[1..]);
        EmptyHasNothing(p[1..]);
        assert p <= word <==> p[1..] <= word[1..];
      }
    }
  }

  /** Every word found is also a prefix found. */
  lemma SearchImpliesStartsWith(t: Node, w: string)
    requires Search(t, w)
    ensures StartsWith(t, w)
  {
  }

  /** Building a trie from a list of words finds exactly those words, and as
      prefixes their prefixes (the empty prefix is found even in an empty trie). */
  function Build(words: seq<string>): (t: Node)
    decreases |words|
  {
    if |words| == 0 then Empty else Insert(Build(words[..|words| - 1]), words[|words| - 1])
  }

  lemma {:induction false} BuildFindsExactly(words: seq<string>, w: string)
    ensures Search(Build(words), w) <==> w in words
    ensures StartsWith(Build(words), w) <==> |w| == 0 || exists i :: 0 <= i < |words| && w <= words[i]
    decreases |words|
  {
    if |words| == 0 {
      EmptyHasNothing(w);
    } else {
      var init := words[..|words| - 1];
      var last := words[|words| - 1];
      BuildFindsExactly(init, w);
      SearchAfterInsert(Build(init), last, w);
      StartsWithAfterInsert(Build(init), last, w);
      assert words == init + [last];
      if StartsWith(Build(words), w) && !(w <= last) {
        var i :| 0 <= i < |init| && w <= init[i];
        assert words[i] == init[i];
      }
      if exists i :: 0 <= i < |words| && w <= words[i] {
        var i :| 0 <= i < |words| && w <= words[i];
        if i < |init| { assert init[i] == words[i]; }
      }
    }
  }
}
