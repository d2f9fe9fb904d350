// Word lookup used by the board: a fixed whitelist for two-letter words and
// a bulk word list, loaded asynchronously, for longer words.

module Dictionary {
  import opened Tiles

  /** The two-letter words the game accepts; the word list is never asked about them. */
  const TwoLetterWords: set<string> := {
      "aa", "ab", "ad", "ae", "ag", "ah", "ai", "al", "am", "an", "ar", "as", "at", "aw", "ax", 
      "ay", "ba", "be", "bi", "bo", "by", "da", "de", "do", "ed", "ef", "eh", "el", "em", "en", 
      "er", "es", "et", "ex", "fa", "fe", "go", "ha", "he", "hi", "hm", "ho", "id", "if", "in", 
      "is", "it", "jo", "ka", "ki", "la", "li", "lo", "ma", "me", "mi", "mm", "mo", "mu", "my", 
      "na", "ne", "no", "nu", "od", "oe", "of", "oh", "oi", "ok", "om", "on", "op", "or", "os", 
      "ow", "ox", "oy", "pa", "pe", "pi", "qi", "re", "sh", "si", "so", "ta", "te", "ti", "to", 
      "uh", "um", "un", "up", "us", "ut", "we", "wo", "xi", "xu", "ya", "ye", "yo", "za"
    }

  /** Lower-casing of one character; the tiles only ever carry 'A' to 'Z'. */
  function LowerChar(c: char): char
  {
    if 'A' <= c <= 'Z' then (c as int - 'A' as int + 'a' as int) as char else c
  }

  /** Lower-casing of a word, character by character. */
  function Lower(s: string): (r: string)
    ensures |r| == |s|
    ensures forall i :: 0 <= i < |s| ==> r[i] == LowerChar(s[i])
  {
    seq(|s|, i requires 0 <= i < |s| => LowerChar(s[i]))
  }

  /**
   * The word set built once the word list has arrived: every entry,
   * lower-cased.
   */
  function LoadWordSet(data: seq<string>): (r: set<string>)
    ensures forall i :: 0 <= i < |data| ==> Lower(data[i]) in r
    ensures forall w :: w in r ==> Lower(w) == w
  {
    set i | 0 <= i < |data| :: Lower(data[i])
  }

  /**
   * Whether a word is accepted. wordSet is None until the word list has
   * loaded; a lookup before that answers false.
   */
  function IsValidWord(wordSet: Option<set<string>>, word: string): (r: bool)
    ensures r ==> 2 <= |word|
    ensures r ==> Lower(word) in TwoLetterWords || (wordSet.Some? && Lower(word) in wordSet.value)
  {
    if |word| < 2 then false
    else
      var clean := Lower(word);
      if |word| == 2 then clean in TwoLetterWords
      else wordSet.Some? && clean in wordSet.value
  }

  lemma LowerIdempotent(s: string)
    ensures Lower(Lower(s)) == Lower(s)
  {
  }

  /** Empty words and one-letter words are never accepted, whatever the word set. */
  lemma ShortWordRejected(wordSet: Option<set<string>>, word: string)
    requires |word| < 2
    ensures !IsValidWord(wordSet, word)
  {
  }

  /**
   * A two-letter word is accepted exactly when its lower-cased form is on
   * the whitelist, so two word sets (or none) always agree on it.
   */
  lemma TwoLetterWordIgnoresWordSet(s1: Option<set<string>>, s2: Option<set<string>>, word: string)
    requires |word| == 2
    ensures IsValidWord(s1, word) <==> Lower(word) in TwoLetterWords
    ensures IsValidWord(s1, word) == IsValidWord(s2, word)
  {
  }

  /**
   * A word of three or more letters is accepted exactly when the loaded word
   * set holds its lower-cased form; before the list loads it is rejected.
   */
  lemma LongWordNeedsWordSet(wordSet: Option<set<string>>, word: string)
    requires |word| > 2
    ensures IsValidWord(wordSet, word) <==> wordSet.Some? && Lower(word) in wordSet.value
    ensures !IsValidWord(None, word)
  {
  }

  /** The lookup ignores case: a word and its lower-cased form get the same answer. */
  lemma {:induction false} CaseInsensitive(wordSet: Option<set<string>>, word: string)
    ensures IsValidWord(wordSet, word) == IsValidWord(wordSet, Lower(word))
  {
    LowerIdempotent(word);
  }

  /**
   * Once the word list has loaded, a word of three or more letters is
   * accepted exactly when some entry of the list equals it up to case.
   */
  lemma {:induction false} LoadedLookup(data: seq<string>, word: string)
    requires |word| > 2
    ensures IsValidWord(Some(LoadWordSet(data)), word)
        <==> exists i :: 0 <= i < |data| && Lower(data[i]) == Lower(word)
  {
  }
}
