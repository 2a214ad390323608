/**
 * generate_ngrams of ngrams.py: the line is lower-cased, every run of
 * non-word characters becomes one space, the result is split on spaces and
 * the empty pieces are dropped; every window of `count` consecutive tokens,
 * joined by single spaces, is an n-gram. Characters are classified as ASCII
 * (letters, digits and '_' are word characters; only 'A'..'Z' have a lower
 * case).
 */
module Ngrams {

  predicate IsUpper(c: char)
  {
    'A' <= c <= 'Z'
  }

  function Lower(c: char): char
  {
    if IsUpper(c) then (c as int + 32) as char else c
  }

  /** str.lower. */
  function LowerLine(s: string): (r: string)
    ensures |r| == |s|
    ensures forall i :: 0 <= i < |s| ==> !IsUpper(r[i])
    ensures forall i :: 0 <= i < |s| && !IsUpper(s[i]) ==> r[i] == s[i]
  {
    seq(|s|, i requires 0 <= i < |s| => Lower(s[i]))
  }

  /** A character that \w matches. */
  predicate IsWordChar(c: char)
  {
    'a' <= c <= 'z' || 'A' <= c <= 'Z' || '0' <= c <= '9' || c == '_'
  }

  /** The line without its leading non-word characters. */
  function SkipNonWord(s: string): (r: string)
    ensures |r| <= |s| && r == s[|s| - |r|..]
    ensures r == [] || IsWordChar(r[0])
  {
    if s != [] && !IsWordChar(s[0]) then
      var r := SkipNonWord(s[1..]);
      assert s[1..][|s| - 1 - |r|..] == s[|s| - |r|..];
      r
    else s
  }

  /** re.sub(r'\W+', ' ', s): every maximal run of non-word characters becomes one space. */
  function SubNonWord(s: string): (r: string)
    ensures s != [] && IsWordChar(s[0]) ==> r != [] && r[0] == s[0]
    ensures forall i :: 0 <= i < |r| - 1 ==> r[i] != ' ' || r[i + 1] != ' '
    decreases |s|
  {
    if s == [] then []
    else if IsWordChar(s[0]) then [s[0]] + SubNonWord(s[1..])
    else [' '] + SubNonWord(SkipNonWord(s[1..]))
  }

  /** str.split(" "): the pieces between single spaces, empty pieces included. */
  function Split(s: string): (parts: seq<string>)
    ensures |parts| >= 1
  {
    if s == [] then [""]
    else
      var rest := Split(s[1..]);
      if s[0] == ' ' then [""] + rest else [[s[0]] + rest[0]] + rest[1..]
  }

  /** The non-empty pieces, in order. */
  function NonEmpty(parts: seq<string>): seq<string>
  {
    if parts == [] then []
    else (if parts[0] != "" then [parts[0]] else []) + NonEmpty(parts[1..])
  }

  /** The tokens of a line. */
  function Tokens(line: string): seq<string>
  {
    NonEmpty(Split(SubNonWord(LowerLine(line))))
  }

  /** tokens[i:], which is empty once i is past the end. */
  function Drop(tokens: seq<string>, i: nat): seq<string>
  {
    if i <= |tokens| then tokens[i..] else []
  }

  /** [tokens[i:] for i in range(count)]. */
  function Shifts(tokens: seq<string>, count: int): seq<seq<string>>
  {
    if count <= 0 then [] else seq(count, i requires 0 <= i < count => Drop(tokens, i))
  }

  /** The length of the shortest list. */
  function MinLength(lists: seq<seq<string>>): (n: nat)
    requires |lists| > 0
    ensures forall i :: 0 <= i < |lists| ==> n <= |lists[i]|
    ensures exists i :: 0 <= i < |lists| && n == |lists[i]|
  {
    if |lists| == 1 then |lists[0]|
    else
      var n := MinLength(lists[1..]);
      if |lists[0]| <= n then |lists[0]| else n
  }

  /** zip(*lists): tuple k holds entry k of every list, as long as every list
      has one; zip of no lists yields nothing. */
  function Zip(lists: seq<seq<string>>): seq<seq<string>>
  {
    if lists == [] then []
    else
      var n := MinLength(lists);
      seq(n, k requires 0 <= k < n => seq(|lists|, i requires 0 <= i < |lists| => lists[i][k]))
  }

  /** " ".join(words). */
  function Join(words: seq<string>): string
  {
    if words == [] then ""
    else if |words| == 1 then words[0]
    else words[0] + " " + Join(words[1..])
  }

  /** generate_ngrams(line, count). */
  function GenerateNgrams(line: string, count: int): seq<string>
  {
    var ngrams := Zip(Shifts(Tokens(line), count));
    seq(|ngrams|, k requires 0 <= k < |ngrams| => Join(ngrams[k]))
  }

  // ---------------------------------------------------------------------
  // Tokens
  // ---------------------------------------------------------------------

  /** After the substitution, every character is a space or a word character of the line. */
  lemma {:induction false} SubNonWordChars(s: string)
    ensures forall c :: c in SubNonWord(s) ==> c == ' ' || (c in s && IsWordChar(c))
    decreases |s|
  {
    if s != [] {
      if IsWordChar(s[0]) {
        SubNonWordChars(s[1..]);
      } else {
        var t := SkipNonWord(s[1..]);
        SubNonWordChars(t);
        assert forall c :: c in t ==> c in s;
      }
    }
  }

  /** The pieces of a split hold no space and only characters of the string. */
  lemma {:induction false} SplitChars(s: string)
    ensures forall p, c :: p in Split(s) && c in p ==> c != ' ' && c in s
  {
    if s != [] {
      SplitChars(s[1..]);
      var rest := Split(s[1..]);
      if s[0] != ' ' {
        assert Split(s) == [[s[0]] + rest[0]] + rest[1..];
        assert forall p :: p in rest[1..] ==> p in rest;
      }
    }
  }

  /** Filtering keeps only non-empty pieces, and only pieces that were there. */
  lemma {:induction false} NonEmptyParts(parts: seq<string>)
    ensures forall t :: t in NonEmpty(parts) ==> t != "" && t in parts
  {
    if parts != [] {
      NonEmptyParts(parts[1..]);
    }
  }

  /** Every token is non-empty and made of lower-case word characters, so it
      holds no space. */
  lemma TokensWellFormed(line: string)
    ensures forall t :: t in Tokens(line) ==> t != ""
    ensures forall t, c :: t in Tokens(line) && c in t ==> IsWordChar(c) && !IsUpper(c) && c != ' '
  {
    var lowered := LowerLine(line);
    var spaced := SubNonWord(lowered);
    SubNonWordChars(lowered);
    SplitChars(spaced);
    NonEmptyParts(Split(spaced));
    assert forall c :: c in lowered ==> !IsUpper(c);
  }

  // ---------------------------------------------------------------------
  // Windows
  // ---------------------------------------------------------------------

  /** There are count - 1 fewer n-grams than tokens, and none when count is not
      positive or exceeds the number of tokens. */
  lemma NgramCount(line: string, count: int)
    ensures |GenerateNgrams(line, count)| ==
              if count <= 0 || |Tokens(line)| < count then 0 else |Tokens(line)| - count + 1
  {
    var tokens := Tokens(line);
    if count > 0 {
      var lists := Shifts(tokens, count);
      var n := MinLength(lists);
      assert n <= |lists[count - 1]|;
      var i :| 0 <= i < |lists| && n == |lists[i]|;
    }
  }

  /** The k-th n-gram is tokens k .. k + count - 1 joined by single spaces. */
  lemma NgramAt(line: string, count: int, k: nat)
    requires k < |GenerateNgrams(line, count)|
    ensures 1 <= count && k + count <= |Tokens(line)|
    ensures GenerateNgrams(line, count)[k] == Join(Tokens(line)[k..k + count])
  {
    NgramCount(line, count);
    var tokens := Tokens(line);
    var lists := Shifts(tokens, count);
    var window := Zip(lists)[k];
    assert window == tokens[k..k + count];
  }

  /** With count = 1 the n-grams are the tokens themselves. */
  lemma Unigrams(line: string)
    ensures GenerateNgrams(line, 1) == Tokens(line)
  {
    NgramCount(line, 1);
    forall k | 0 <= k < |Tokens(line)|
      ensures GenerateNgrams(line, 1)[k] == Tokens(line)[k]
    {
      NgramAt(line, 1, k);
    }
  }

  // ---------------------------------------------------------------------
  // Joining and splitting
  // ---------------------------------------------------------------------

  /** A string without spaces splits into itself. */
  lemma {:induction false} SplitWord(a: string)
    requires ' ' !in a
    ensures Split(a) == [a]
  {
    if a != [] {
      SplitWord(a[1..]);
      assert [a[0]] + a[1..] == a;
    }
  }

  /** A word without spaces followed by a space splits off as the first piece. */
  lemma {:induction false} SplitAfterWord(a: string, b: string)
    requires ' ' !in a
    ensures Split(a + " " + b) == [a] + Split(b)
  {
    if a == [] {
      assert a + " " + b == [' '] + b;
      assert (a + " " + b)[1..] == b;
    } else {
      var s := a + " " + b;
      SplitAfterWord(a[1..], b);
      assert s[0] == a[0] != ' ';
      assert s[1..] == a[1..] + " " + b;
      assert [a[0]] + a[1..] == a;
    }
  }

  /** Splitting on spaces undoes joining with spaces, for at least one word
      and words without spaces. */
  lemma {:induction false} SplitJoin(words: seq<string>)
    requires |words| >= 1
    requires forall w :: w in words ==> ' ' !in w
    ensures Split(Join(words)) == words
  {
    if |words| == 1 {
      SplitWord(words[0]);
    } else {
      SplitAfterWord(words[0], Join(words[1..]));
      SplitJoin(words[1..]);
    }
  }

  /** Splitting the k-th n-gram on spaces gives back its window of tokens. */
  lemma NgramWords(line: string, count: int, k: nat)
    requires k < |GenerateNgrams(line, count)|
    ensures 1 <= count && k + count <= |Tokens(line)|
    ensures Split(GenerateNgrams(line, count)[k]) == Tokens(line)[k..k + count]
  {
    NgramAt(line, count, k);
    TokensWellFormed(line);
    var window := Tokens(line)[k..k + count];
    assert forall w :: w in window ==> w in Tokens(line);
    SplitJoin(window);
  }

  /** Joined words hold only the words' characters and spaces. */
  lemma {:induction false} JoinChars(words: seq<string>)
    ensures forall c :: c in Join(words) ==> c == ' ' || exists w :: w in words && c in w
  {
    if |words| > 1 {
      JoinChars(words[1..]);
      assert forall w :: w in words[1..] ==> w in words;
    }
  }

  /** The k-th n-gram holds no upper-case letter. */
  lemma NgramLowercaseAt(line: string, count: int, k: nat)
    requires k < |GenerateNgrams(line, count)|
    ensures forall c :: c in GenerateNgrams(line, count)[k] ==> !IsUpper(c)
  {
    NgramAt(line, count, k);
    TokensWellFormed(line);
    var window := Tokens(line)[k..k + count];
    JoinChars(window);
    assert forall w :: w in window ==> w in Tokens(line);
  }

  /** No n-gram holds an upper-case letter. */
  lemma NgramsLowercase(line: string, count: int)
    ensures forall g, c :: g in GenerateNgrams(line, count) && c in g ==> !IsUpper(c)
  {
    var ngrams := GenerateNgrams(line, count);
    forall g, c | g in ngrams && c in g
      ensures !IsUpper(c)
    {
      var k :| 0 <= k < |ngrams| && ngrams[k] == g;
      NgramLowercaseAt(line, count, k);
    }
  }
}
