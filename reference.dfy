/**
 * What a scan means, stated over the dictionary of (pattern, label) pairs alone,
 * without any trie nodes or failure links.
 *
 * After each byte the matcher's state is the longest suffix of the text read so far that is
 * a prefix of some pattern; when that state is itself a pattern, its label becomes the
 * result. The result of a scan is the label recorded last.
 */
module Reference {
  import opened Wrappers
  import opened ByteStrings

  /** The strings the trie spells for dictionary `d`: the root and every prefix of a pattern. */
  ghost function TrieWords(d: map<bytes, string>): (W: set<bytes>)
    ensures [] in W
    ensures forall p :: p in d ==> p in W
  {
    var W := {[]} + set p, k | p in d && 0 <= k <= |p| :: p[..k];
    assert forall p :: p in d ==> p[..|p|] == p;
    W
  }

  /** Membership in `TrieWords`, in both directions. */
  lemma InTrieWords(d: map<bytes, string>, w: bytes)
    ensures w in TrieWords(d) <==> w == [] || exists p :: p in d && IsPrefix(w, p)
  {
    if w != [] && w in TrieWords(d) {
      var p, k :| p in d && 0 <= k <= |p| && w == p[..k];
      assert IsPrefix(w, p);
    }
    if exists p :: p in d && IsPrefix(w, p) {
      var p :| p in d && IsPrefix(w, p);
      assert w == p[..|w|];
    }
  }

  /** The state after reading `text`: its longest suffix that the trie spells. */
  ghost function State(d: map<bytes, string>, text: bytes): bytes {
    LongestSuffix(TrieWords(d), text)
  }

  /** The label the scan of `text` returns: that of the last state, among the states after
      each byte, that is a pattern; `None` when there is none (in particular for empty text). */
  ghost function Categorize(d: map<bytes, string>, text: bytes): Option<string>
    decreases |text|
  {
    if text == [] then None
    else if State(d, text) in d then Some(d[State(d, text)])
    else Categorize(d, text[..|text| - 1])
  }

  /** Reading one more byte records the new state's label if it is a pattern, and keeps the
      previous result otherwise. */
  lemma CategorizeStep(d: map<bytes, string>, text: bytes, b: byte)
    ensures Categorize(d, text + [b]) ==
            if State(d, text + [b]) in d then Some(d[State(d, text + [b])]) else Categorize(d, text)
  {
    assert (text + [b])[..|text|] == text;
  }

  /** The result is always the label of some pattern. */
  lemma {:induction false} CategorizeIsLabel(d: map<bytes, string>, text: bytes)
    ensures Categorize(d, text).Some? ==> Categorize(d, text).value in d.Values
    decreases |text|
  {
    if text != [] && State(d, text) !in d {
      CategorizeIsLabel(d, text[..|text| - 1]);
    }
  }

  /** Once the scan has recorded a label, reading more bytes never resets it to `None`. */
  lemma {:induction false} CategorizeSticky(d: map<bytes, string>, text: bytes, more: bytes)
    requires Categorize(d, text).Some?
    ensures Categorize(d, text + more).Some?
    decreases |more|
  {
    if more != [] {
      var shorter := more[..|more| - 1];
      assert (text + more)[..|text + more| - 1] == text + shorter;
      CategorizeSticky(d, text, shorter);
    } else {
      assert text + more == text;
    }
  }

  /** Scanning exactly a non-empty pattern returns that pattern's label. */
  lemma CategorizePattern(d: map<bytes, string>, p: bytes)
    requires p in d && p != []
    ensures Categorize(d, p) == Some(d[p])
  {
    LongestSuffixOfMember(TrieWords(d), p);
  }

  /** The last match wins: if the state after `k` bytes is a pattern and no state after a later
      byte is, the result is the label of that state. */
  lemma {:induction false} LastMatchWins(d: map<bytes, string>, text: bytes, k: nat)
    requires 0 < k <= |text| && State(d, text[..k]) in d
    requires forall j :: k < j <= |text| ==> State(d, text[..j]) !in d
    ensures Categorize(d, text) == Some(d[State(d, text[..k])])
    decreases |text|
  {
    if k < |text| {
      var shorter := text[..|text| - 1];
      assert text[..|text|] == text;
      assert forall j :: 0 <= j <= |shorter| ==> shorter[..j] == text[..j];
      LastMatchWins(d, shorter, k);
    } else {
      assert text[..k] == text;
    }
  }

  /** A scan in which no state reached after a byte is a pattern returns `None`. */
  lemma {:induction false} NoMatchNone(d: map<bytes, string>, text: bytes)
    requires forall k :: 0 < k <= |text| ==> State(d, text[..k]) !in d
    ensures Categorize(d, text) == None
    decreases |text|
  {
    if text != [] {
      var shorter := text[..|text| - 1];
      forall k | 0 < k <= |shorter|
        ensures State(d, shorter[..k]) !in d
      {
        assert shorter[..k] == text[..k];
      }
      NoMatchNone(d, shorter);
      assert text[..|text|] == text;
    }
  }

  /** A scan that returns `None` reached no pattern state after any byte. */
  lemma {:induction false} NoneNoMatch(d: map<bytes, string>, text: bytes, k: nat)
    requires Categorize(d, text) == None && 0 < k <= |text|
    ensures State(d, text[..k]) !in d
    decreases |text|
  {
    var shorter := text[..|text| - 1];
    assert State(d, text) !in d && Categorize(d, shorter) == None;
    if k == |text| {
      assert text[..k] == text;
    } else {
      assert shorter[..k] == text[..k];
      NoneNoMatch(d, shorter, k);
    }
  }

  /** The scan returns `None` exactly when no state reached after a byte is a pattern. */
  lemma CategorizeNone(d: map<bytes, string>, text: bytes)
    ensures Categorize(d, text) == None <==> forall k :: 0 < k <= |text| ==> State(d, text[..k]) !in d
  {
    if Categorize(d, text) == None {
      forall k | 0 < k <= |text|
        ensures State(d, text[..k]) !in d
      {
        NoneNoMatch(d, text, k);
      }
    } else if forall k :: 0 < k <= |text| ==> State(d, text[..k]) !in d {
      NoMatchNone(d, text);
    }
  }

  /** A text in which no pattern occurs is categorized as `None`. */
  lemma NoOccurrenceNone(d: map<bytes, string>, text: bytes)
    requires forall p :: p in d ==> !OccursIn(p, text)
    ensures Categorize(d, text) == None
  {
    forall k | 0 < k <= |text|
      ensures State(d, text[..k]) !in d
    {
      var s := State(d, text[..k]);
      LongestSuffixIsSuffix(TrieWords(d), text[..k]);
      assert text[k - |s|..][..|s|] == s;
    }
    NoMatchNone(d, text);
  }
}
