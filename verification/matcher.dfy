/** The keyword matcher of `processImagesWithVideoMappings` (custom.js:453-486):
    the first key of the table, in `Object.keys` order, that the alt text and the
    key relate to in either direction. */
module Matcher {
  import opened Wrappers
  import opened Text

  /** Some word of the key occurs in the alt text (`hasKeyword`). The second
      disjunct, the word being one of the alt words, is the script's own
      belt-and-braces test. */
  predicate HasKeyword(keyLower: string, altLower: string) {
    var altWords := SplitWs(altLower);
    var keyWords := SplitWs(keyLower);
    exists i :: 0 <= i < |keyWords| && (Includes(altLower, keyWords[i]) || keyWords[i] in altWords)
  }

  /** Some word of the alt text occurs in the key (`hasAltWord`). */
  predicate HasAltWord(keyLower: string, altLower: string) {
    var altWords := SplitWs(altLower);
    exists j :: 0 <= j < |altWords| && Includes(keyLower, altWords[j])
  }

  /** The callback given to `find`. */
  predicate KeyMatches(key: string, altLower: string) {
    var keyLower := Lower(key);
    HasKeyword(keyLower, altLower) || HasAltWord(keyLower, altLower)
  }

  /** `Object.keys(videoMap).find(...)`, as the position of the found key. */
  function FirstMatch(keys: seq<string>, altLower: string): (r: Option<nat>)
    ensures r.Some? ==> r.value < |keys| && KeyMatches(keys[r.value], altLower)
    ensures r.Some? ==> forall j :: 0 <= j < r.value ==> !KeyMatches(keys[j], altLower)
    ensures r.None? ==> forall j :: 0 <= j < |keys| ==> !KeyMatches(keys[j], altLower)
    decreases |keys|
  {
    if |keys| == 0 then None
    else if KeyMatches(keys[0], altLower) then Some(0)
    else
      match FirstMatch(keys[1..], altLower)
      case None => None
      case Some(i) => Some(i + 1)
  }

  /** Each whitespace-separated word is a piece of the text it came from. */
  lemma {:induction false} WordsOccurInText(s: string)
    ensures StartsWith(s, SplitWs(s)[0])
    ensures forall i :: 0 <= i < |SplitWs(s)| ==> Includes(s, SplitWs(s)[i])
    decreases |s|
  {
    var r := SplitWs(s);
    if |s| == 0 {
      IncludesEmpty(s);
    } else {
      WordsOccurInText(s[1..]);
      var rest := SplitWs(s[1..]);
      assert forall w :: Includes(s[1..], w) ==> Includes(s, w);
      if !IsSpace(s[0]) {
        assert s[..|r[0]|] == [s[0]] + s[1..][..|rest[0]|];
        assert forall i :: 1 <= i < |r| ==> r[i] == rest[i];
      } else if |s| > 1 && IsSpace(s[1]) {
        SplitWsFirst(s);
        assert r[0] == [];
      } else {
        assert forall i :: 1 <= i < |r| ==> r[i] == rest[i - 1];
      }
    }
  }

  /** The alt-word half of `hasKeyword` never decides anything: a key word
      equal to an alt word already occurs in the alt text. */
  lemma KeywordTestReducesToIncludes(keyLower: string, altLower: string)
    ensures HasKeyword(keyLower, altLower) <==>
      exists i :: 0 <= i < |SplitWs(keyLower)| && Includes(altLower, SplitWs(keyLower)[i])
  {
    var keyWords := SplitWs(keyLower);
    if HasKeyword(keyLower, altLower) {
      var i := KeywordIncluded(keyLower, altLower);
      assert Includes(altLower, keyWords[i]);
    }
    if exists i :: 0 <= i < |keyWords| && Includes(altLower, keyWords[i]) {
      var i :| 0 <= i < |keyWords| && Includes(altLower, keyWords[i]);
    }
  }

  /** A key word that passes `hasKeyword` occurs in the alt text, also when it
      passed as one of the alt words. */
  lemma KeywordIncluded(keyLower: string, altLower: string) returns (i: nat)
    requires HasKeyword(keyLower, altLower)
    ensures i < |SplitWs(keyLower)| && Includes(altLower, SplitWs(keyLower)[i])
  {
    var keyWords := SplitWs(keyLower);
    var altWords := SplitWs(altLower);
    i :| 0 <= i < |keyWords| && (Includes(altLower, keyWords[i]) || keyWords[i] in altWords);
    WordsOccurInText(altLower);
    if keyWords[i] in altWords {
      var j :| 0 <= j < |altWords| && altWords[j] == keyWords[i];
      assert Includes(altLower, altWords[j]);
    }
  }

  /** An alt text with leading or trailing whitespace has an empty word, which
      every key contains: such an alt text matches every key. */
  lemma PaddedAltMatchesEveryKey(key: string, altLower: string)
    requires |altLower| > 0
    requires IsSpace(altLower[0]) || IsSpace(altLower[|altLower| - 1])
    ensures KeyMatches(key, altLower)
  {
    var altWords := SplitWs(altLower);
    IncludesEmpty(Lower(key));
    SplitWsFirst(altLower);
    SplitWsLast(altLower);
    if IsSpace(altLower[0]) {
      assert altWords[0] == [];
    } else {
      assert altWords[|altWords| - 1] == [];
    }
  }

  /** The empty key (from a segment such as ` |5`) has one empty word, which
      every alt text contains: it matches every alt text. */
  lemma EmptyKeyMatchesEveryAlt(altLower: string)
    ensures KeyMatches([], altLower)
  {
    assert Lower([]) == [];
    assert SplitWs(Lower([]))[0] == [];
    IncludesEmpty(altLower);
    assert Includes(altLower, SplitWs(Lower([]))[0]);
  }

  /** Position `p` holds the first key that matches the alt text. */
  predicate FirstMatchAt(keys: seq<string>, altLower: string, p: nat) {
    && p < |keys|
    && KeyMatches(keys[p], altLower)
    && forall j :: 0 <= j < p ==> !KeyMatches(keys[j], altLower)
  }

  /** `find` stops exactly at the first matching key. */
  lemma FirstMatchFindsFirst(keys: seq<string>, altLower: string, p: nat)
    ensures FirstMatch(keys, altLower) == Some(p) <==> FirstMatchAt(keys, altLower, p)
  {
    if FirstMatchAt(keys, altLower, p) {
      FirstMatchStopsAt(keys, altLower, p);
    }
  }

  /** `find` never looks past a matching key: in particular an empty key stops
      the search for every alt text. */
  lemma FirstMatchStopsAt(keys: seq<string>, altLower: string, p: nat)
    requires p < |keys| && KeyMatches(keys[p], altLower)
    ensures FirstMatch(keys, altLower).Some?
    ensures FirstMatch(keys, altLower).value <= p
  {
  }

  /** For a one-word key and a one-word alt text, the test is substring
      containment in either direction. */
  lemma OneWordMatch(key: string, altLower: string)
    requires NoSpace(key) && NoSpace(altLower)
    requires Lower(key) == key
    ensures KeyMatches(key, altLower) <==> Includes(altLower, key) || Includes(key, altLower)
  {
    SplitWsFree(key);
    SplitWsFree(altLower);
    var keyLower := Lower(key);
    var keyWords := SplitWs(keyLower);
    var altWords := SplitWs(altLower);
    assert keyWords == [key] && altWords == [altLower];
    if HasKeyword(keyLower, altLower) {
      var i :| 0 <= i < |keyWords| && (Includes(altLower, keyWords[i]) || keyWords[i] in altWords);
      assert i == 0;
      if key == altLower {
        IncludesSelf(altLower);
      }
    }
    if Includes(altLower, key) {
      assert Includes(altLower, keyWords[0]);
    }
    if HasAltWord(keyLower, altLower) {
      var j :| 0 <= j < |altWords| && Includes(keyLower, altWords[j]);
      assert j == 0;
    }
    if Includes(key, altLower) {
      assert Includes(keyLower, altWords[0]);
    }
  }

  /** A one-word key found inside the alt text matches ("team photo" and
      "photo"). */
  lemma KeyWordInAltMatches(key: string, altLower: string)
    requires NoSpace(key) && Lower(key) == key
    requires Includes(altLower, key)
    ensures KeyMatches(key, altLower)
  {
    SplitWsFree(key);
    assert Includes(altLower, SplitWs(Lower(key))[0]);
  }

  /** A one-word alt text found inside the key matches ("team" and "team
      event"). */
  lemma AltWordInKeyMatches(key: string, altLower: string)
    requires NoSpace(altLower)
    requires Includes(Lower(key), altLower)
    ensures KeyMatches(key, altLower)
  {
    SplitWsFree(altLower);
    assert Includes(Lower(key), SplitWs(altLower)[0]);
  }
}
