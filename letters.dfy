/** The game's alphabet and the per-letter occurrence counts built from a word. */
module Letters {

  /** The alphabet `alpha`: the 26 lower-case letters followed by a space. */
  const Alpha: string := "abcdefghijklmnopqrstuvwxyz "

  /** `c` is one of the characters of `Alpha`, stated without a search. */
  predicate IsAlpha(c: char) {
    'a' <= c <= 'z' || c == ' '
  }

  /** Every lower-case letter and the space are in `Alpha`. */
  lemma AlphaHasLetters(c: char)
    requires IsAlpha(c)
    ensures c in Alpha
  {
    if c != ' ' {
      var k := c as int - 'a' as int;
      assert Alpha[k] == c;
    } else {
      assert Alpha[26] == c;
    }
  }

  /** `Alpha` holds nothing but lower-case letters and the space. */
  lemma AlphaHasOnlyLetters(c: char)
    requires c in Alpha
    ensures IsAlpha(c)
  {
    var k :| 0 <= k < |Alpha| && Alpha[k] == c;
  }

  /** `Alpha` holds exactly the lower-case letters and the space. */
  lemma AlphaMembership(c: char)
    ensures c in Alpha <==> IsAlpha(c)
  {
    if IsAlpha(c) {
      AlphaHasLetters(c);
    }
    if c in Alpha {
      AlphaHasOnlyLetters(c);
    }
  }

  /** Every character of `s` is a key of the count maps. */
  predicate InAlpha(s: string) {
    forall i :: 0 <= i < |s| ==> IsAlpha(s[i])
  }

  /** How many times `c` occurs in `s`. */
  function Occurrences(s: string, c: char): nat {
    multiset(s)[c]
  }

  /** The keys of `dict` are the characters of `Alpha`. */
  predicate KeyedByAlpha(dict: map<char, int>) {
    forall c {:trigger c in dict} :: c in dict <==> IsAlpha(c)
  }

  /** The outcome of counting: the count map, or the KeyError raised for a
      character that is not a key. */
  datatype Counted = Counts(dict: map<char, int>) | KeyError(letter: char)

  /** The first half of the counting: a map from every key of `Alpha` to zero,
      filled one key at a time in alphabet order. */
  method ZeroCounts() returns (dic: map<char, int>)
    ensures KeyedByAlpha(dic)
    ensures forall c :: c in dic ==> dic[c] == 0
  {
    dic := map[];
    for k := 0 to |Alpha|
      invariant forall c :: c in dic <==> c in Alpha[..k]
      invariant forall c :: c in dic ==> dic[c] == 0
    {
      assert Alpha[..k + 1] == Alpha[..k] + [Alpha[k]];
      dic := dic[Alpha[k] := 0];
    }
    assert Alpha[..|Alpha|] == Alpha;
    forall c
      ensures c in dic <==> IsAlpha(c)
    {
      AlphaMembership(c);
    }
  }

  /** Builds the letter-count map of `word`: every key of `Alpha` is first set
      to zero, then each character of `word` bumps its own key. */
  method Dictify(word: string) returns (r: Counted)
    ensures r.KeyError? <==> !InAlpha(word)
    ensures r.KeyError? ==> r.letter in word && r.letter !in Alpha
    ensures r.Counts? ==> KeyedByAlpha(r.dict)
    ensures r.Counts? ==> forall c :: c in r.dict ==> r.dict[c] == Occurrences(word, c)
  {
    var dic := ZeroCounts();
    for i := 0 to |word|
      invariant KeyedByAlpha(dic)
      invariant forall j :: 0 <= j < i ==> IsAlpha(word[j])
      invariant forall c :: c in dic ==> dic[c] == multiset(word[..i])[c]
    {
      if word[i] !in dic {
        AlphaMembership(word[i]);
        return KeyError(word[i]);
      }
      assert word[..i + 1] == word[..i] + [word[i]];
      dic := dic[word[i] := dic[word[i]] + 1];
    }
    assert word[..|word|] == word;
    return Counts(dic);
  }
}
