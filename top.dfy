/**
 * hw03_frequency_analysis/top.go: `normalizeWord` and `Top10`.
 *
 * `Top10` splits its input into fields, normalises each field, counts the
 * non-empty normal forms in a map, lists the map's keys, sorts them by count
 * descending and then by word ascending, and keeps the first ten. The counts
 * are specified independently of the map by `Occurrences`, the words counted
 * by `Counted`, and the result by `IsTop10`, which is proved to determine it.
 */
module FrequencyAnalysis {
  import opened Words

  /** The characters `normalizeWord` trims from both ends of a word. */
  const Punctuation: set<char> := {'!', '.', ',', ';', ':', '"', '\'', '(', ')', '[', ']', ' '}

  /** `strings.Count(s, string(c))` for one character `c`. */
  function CountChar(s: string, c: char): (n: nat)
    ensures n <= |s|
  {
    if s == [] then 0 else (if s[0] == c then 1 else 0) + CountChar(s[1..], c)
  }

  /** Every character is `c` exactly when all of them are counted. */
  lemma {:induction false} CountCharAll(s: string, c: char)
    ensures CountChar(s, c) == |s| <==> forall j :: 0 <= j < |s| ==> s[j] == c
  {
    if s != [] {
      CountCharAll(s[1..], c);
      assert forall j :: 1 <= j < |s| ==> s[j] == s[1..][j - 1];
    }
  }

  /**
   * `normalizeWord`: lower-case the word; a word made only of hyphens is kept
   * when it has at least two of them and dropped otherwise; any other word
   * loses the punctuation at both ends and is dropped when nothing is left.
   * The empty string stands for "dropped".
   */
  function NormalizeWord(word: string): (r: string)
    ensures |r| <= |word|
  {
    var w := ToLower(word);
    if CountChar(w, '-') == |w| then
      if |w| > 1 then w else []
    else
      var t := Trim(w, Punctuation);
      if |t| == 0 then [] else t
  }

  /**
   * The `n` characters of `s` from position `i`. A bare slice `s[i..i + n]`
   * gives the existential in `NormalizedIsPiece` no term to trigger on; the
   * function call is that term.
   */
  function Piece(s: string, i: nat, n: nat): string
    requires i + n <= |s|
  {
    s[i..i + n]
  }

  predicate IsLower(s: string) {
    forall j :: 0 <= j < |s| ==> !('A' <= s[j] <= 'Z')
  }

  lemma {:induction false} ToLowerIsLower(s: string)
    ensures IsLower(ToLower(s))
  {
    ToLowerEach(s);
  }

  /** A kept word is in lower case. */
  lemma {:induction false} NormalizedIsLower(word: string)
    ensures NormalizeWord(word) != [] ==> IsLower(NormalizeWord(word))
  {
    var w := ToLower(word);
    ToLowerIsLower(word);
    if CountChar(w, '-') != |w| {
      TrimKeepsLower(w, Punctuation);
    }
  }

  lemma {:induction false} TrimKeepsLower(w: string, cut: set<char>)
    requires IsLower(w)
    ensures IsLower(Trim(w, cut))
  {
    TrimIsInner(w, cut);
  }

  /** A kept word neither starts nor ends with punctuation. */
  lemma {:induction false} NormalizedEnds(word: string)
    ensures NormalizeWord(word) != [] ==>
              NormalizeWord(word)[0] !in Punctuation && NormalizeWord(word)[|NormalizeWord(word)| - 1] !in Punctuation
  {
    var w := ToLower(word);
    if CountChar(w, '-') == |w| {
      CountCharAll(w, '-');
    } else {
      TrimEnds(w, Punctuation);
    }
  }

  /** A kept word is a contiguous piece of the lower-cased word. */
  lemma {:induction false} NormalizedIsPiece(word: string)
    ensures NormalizeWord(word) != [] ==>
              exists i: nat :: i + |NormalizeWord(word)| <= |word| && Piece(ToLower(word), i, |NormalizeWord(word)|) == NormalizeWord(word)
  {
    var w := ToLower(word);
    var r := NormalizeWord(word);
    if r != [] {
      if CountChar(w, '-') == |w| {
        assert Piece(w, 0, |r|) == r;
      } else {
        TrimIsInner(w, Punctuation);
        var i := |w| - |TrimLeft(w, Punctuation)|;
        assert Piece(w, i, |r|) == r;
      }
    }
  }

  /** A token of two or more hyphens is kept as it is. */
  lemma {:induction false} HyphenRunKept(word: string)
    requires |word| >= 2 && forall j :: 0 <= j < |word| ==> word[j] == '-'
    ensures NormalizeWord(word) == word
  {
    ToLowerEach(word);
    assert ToLower(word) == word;
    CountCharAll(word, '-');
  }

  /** A lone hyphen, and a word made only of punctuation, are dropped. */
  lemma {:induction false} DroppedWords(word: string)
    requires word == "-" || (word != [] && forall j :: 0 <= j < |word| ==> word[j] in Punctuation)
    ensures NormalizeWord(word) == []
  {
    var w := ToLower(word);
    CountCharAll(w, '-');
    if word != "-" {
      ToLowerEach(word);
      assert w[0] == word[0] && w[0] != '-';
      assert forall j :: 0 <= j < |w| ==> w[j] == word[j];
      TrimLeftIsSuffix(w, Punctuation);
    }
  }

  /**
   * Normalising a kept word again keeps it as it is, except for the word
   * "-", which a token such as "(-)" normalises to and which is dropped.
   */
  lemma {:induction false} NormalizeWordIdempotent(word: string)
    requires NormalizeWord(word) != [] && NormalizeWord(word) != "-"
    ensures NormalizeWord(NormalizeWord(word)) == NormalizeWord(word)
  {
    var r := NormalizeWord(word);
    NormalizedIsLower(word);
    NormalizedEnds(word);
    ToLowerEach(r);
    assert ToLower(r) == r;
    if CountChar(r, '-') != |r| {
      TrimNothingToCut(r, Punctuation);
    }
  }

  /** "(-)" normalises to "-", so the word "-" can still be counted. */
  lemma {:induction false} ParenthesisedHyphen()
    ensures NormalizeWord("(-)") == "-"
  {
    LowerParenthesisedHyphen();
    TrimParenthesisedHyphen();
  }

  lemma {:induction false} LowerParenthesisedHyphen()
    ensures ToLower("(-)") == "(-)" && CountChar("(-)", '-') == 1
  {
    assert ToLower("(-)") == [LowerChar('(')] + ToLower("-)");
    assert ToLower("-)") == [LowerChar('-')] + ToLower(")");
  }

  lemma {:induction false} TrimParenthesisedHyphen()
    ensures Trim("(-)", Punctuation) == "-"
  {
    var s: string, t: string, u: string := "(-)", "-)", "-";
    assert '(' in Punctuation && ')' in Punctuation && '-' !in Punctuation;
    assert s[0] == '(' && s[1..] == t;
    assert TrimLeft(t, Punctuation) == t;
    assert TrimLeft(s, Punctuation) == t;
    assert t[|t| - 1] == ')' && t[..1] == u;
    assert TrimRight(u, Punctuation) == u;
    assert TrimRight(t, Punctuation) == u;
  }

  // ---------------------------------------------------------------------------
  // Counting
  // ---------------------------------------------------------------------------

  /** The word a field is counted under, or the empty string when it is not counted. */
  function Token(field: string): (t: string)
    ensures |t| <= |field|
  {
    if field == "-" then [] else NormalizeWord(field)
  }

  /** The lone-hyphen check before normalising drops nothing that normalising would keep. */
  lemma {:induction false} LoneHyphenNeverCounted(field: string)
    ensures Token(field) == NormalizeWord(field)
    ensures Token("-") == []
  {
    DroppedWords("-");
  }

  /** The word each field is counted under, in order. */
  function Tokens(ws: seq<string>): (ts: seq<string>)
    ensures |ts| == |ws|
  {
    if ws == [] then [] else Tokens(ws[..|ws| - 1]) + [Token(ws[|ws| - 1])]
  }

  lemma {:induction false} TokensAt(ws: seq<string>, i: nat)
    requires i < |ws|
    ensures Tokens(ws)[i] == Token(ws[i])
    decreases |ws|
  {
    if i < |ws| - 1 {
      TokensAt(ws[..|ws| - 1], i);
    }
  }

  /** The number of the first `n` tokens `ts` equal to the word `x`. */
  function OccurrencesIn(ts: seq<string>, n: nat, x: string): nat
    requires n <= |ts|
  {
    if n == 0 then 0
    else OccurrencesIn(ts, n - 1, x) + (if x != [] && ts[n - 1] == x then 1 else 0)
  }

  /** The words among the first `n` tokens `ts`. */
  function CountedIn(ts: seq<string>, n: nat): (r: set<string>)
    requires n <= |ts|
    ensures [] !in r
  {
    if n == 0 then {}
    else CountedIn(ts, n - 1) + (if ts[n - 1] != [] then {ts[n - 1]} else {})
  }

  /** How often the word `x` is counted among the fields `ws`. */
  function Occurrences(ws: seq<string>, x: string): nat {
    OccurrencesIn(Tokens(ws), |ws|, x)
  }

  /** The words counted among the fields `ws`. */
  function Counted(ws: seq<string>): set<string> {
    CountedIn(Tokens(ws), |ws|)
  }

  /** A word is counted exactly when it occurs at least once. */
  lemma {:induction false} CountedIffOccurs(ts: seq<string>, n: nat, x: string)
    requires n <= |ts|
    ensures x in CountedIn(ts, n) <==> OccurrencesIn(ts, n, x) > 0
  {
    if n > 0 {
      CountedIffOccurs(ts, n - 1, x);
      CountOneMore(CountedIn(ts, n - 1), OccurrencesIn(ts, n - 1, x), ts[n - 1], x);
    }
  }

  /** One more token `t`: the word `x` is in the new set exactly when its new count is positive. */
  lemma {:induction false} CountOneMore(counted: set<string>, o: nat, t: string, x: string)
    requires (x in counted <==> o > 0) && [] !in counted
    ensures x in counted + (if t != [] then {t} else {}) <==> o + (if x != [] && t == x then 1 else 0) > 0
  {
  }

  // ---------------------------------------------------------------------------
  // The order of the result
  // ---------------------------------------------------------------------------

  /** `a` (counted `ca` times) comes before `b` (counted `cb` times): more first, ties by word. */
  predicate Before(ca: int, a: string, cb: int, b: string) {
    ca > cb || (ca == cb && LexLess(a, b))
  }

  lemma {:induction false} BeforeIrreflexive(c: int, a: string)
    ensures !Before(c, a, c, a)
  {
    LexIrreflexive(a);
  }

  lemma {:induction false} BeforeAsymmetric(ca: int, a: string, cb: int, b: string)
    requires Before(ca, a, cb, b)
    ensures !Before(cb, b, ca, a)
  {
    if ca == cb {
      LexAsymmetric(a, b);
    }
  }

  lemma {:induction false} BeforeTransitive(ca: int, a: string, cb: int, b: string, cc: int, c: string)
    requires Before(ca, a, cb, b) && Before(cb, b, cc, c)
    ensures Before(ca, a, cc, c)
  {
    if ca == cb == cc {
      LexTransitive(a, b, c);
    }
  }

  lemma {:induction false} BeforeTotal(ca: int, a: string, cb: int, b: string)
    requires a != b
    ensures Before(ca, a, cb, b) || Before(cb, b, ca, a)
  {
    LexTotal(a, b);
  }

  /** `frequency[w]` in Go: the count of `w`, zero for a word never counted. */
  function Freq(f: map<string, int>, w: string): int {
    if w in f then f[w] else 0
  }

  /** `ws` is in strictly increasing `Before` order of the counts `f`. */
  predicate SortedBy(f: map<string, int>, ws: seq<string>) {
    forall i, j :: 0 <= i < j < |ws| ==> Before(Freq(f, ws[i]), ws[i], Freq(f, ws[j]), ws[j])
  }

  /** A word that comes before every word of a sorted list can be put in front of it. */
  lemma {:induction false} SortedCons(f: map<string, int>, y: string, rest: seq<string>)
    requires SortedBy(f, rest)
    requires forall k :: 0 <= k < |rest| ==> Before(Freq(f, y), y, Freq(f, rest[k]), rest[k])
    ensures SortedBy(f, [y] + rest)
  {
    var r := [y] + rest;
    forall i, j | 0 <= i < j < |r|
      ensures Before(Freq(f, r[i]), r[i], Freq(f, r[j]), r[j])
    {
      assert r[j] == rest[j - 1];
      if i > 0 {
        assert r[i] == rest[i - 1];
      }
    }
  }

  /** Inserting the word `x` into `ws` before the first word it comes before. */
  function Insert(f: map<string, int>, x: string, ws: seq<string>): (r: seq<string>)
    ensures |r| == |ws| + 1
  {
    if ws == [] then [x]
    else if Before(Freq(f, x), x, Freq(f, ws[0]), ws[0]) then [x] + ws
    else [ws[0]] + Insert(f, x, ws[1..])
  }

  /** Inserting adds exactly the one word. */
  lemma {:induction false} InsertPermutes(f: map<string, int>, x: string, ws: seq<string>)
    ensures multiset(Insert(f, x, ws)) == multiset(ws) + multiset{x}
    decreases |ws|
  {
    if ws != [] && !Before(Freq(f, x), x, Freq(f, ws[0]), ws[0]) {
      InsertPermutes(f, x, ws[1..]);
      assert ws == [ws[0]] + ws[1..];
    }
  }

  /** Inserting a new word into a sorted list keeps it sorted. */
  lemma {:induction false} InsertSorted(f: map<string, int>, x: string, ws: seq<string>)
    requires SortedBy(f, ws) && x !in ws
    ensures SortedBy(f, Insert(f, x, ws))
    decreases |ws|
  {
    if ws == [] {
    } else if Before(Freq(f, x), x, Freq(f, ws[0]), ws[0]) {
      forall k | 0 < k < |ws|
        ensures Before(Freq(f, x), x, Freq(f, ws[k]), ws[k])
      {
        BeforeTransitive(Freq(f, x), x, Freq(f, ws[0]), ws[0], Freq(f, ws[k]), ws[k]);
      }
      SortedCons(f, x, ws);
    } else {
      BeforeTotal(Freq(f, x), x, Freq(f, ws[0]), ws[0]);
      var tail := ws[1..];
      assert SortedBy(f, tail) by {
        forall i, j | 0 <= i < j < |tail|
          ensures Before(Freq(f, tail[i]), tail[i], Freq(f, tail[j]), tail[j])
        {
          assert tail[i] == ws[i + 1] && tail[j] == ws[j + 1];
        }
      }
      InsertSorted(f, x, tail);
      InsertPermutes(f, x, tail);
      var rest := Insert(f, x, tail);
      forall k | 0 <= k < |rest|
        ensures Before(Freq(f, ws[0]), ws[0], Freq(f, rest[k]), rest[k])
      {
        assert rest[k] in multiset(rest);
        if rest[k] != x {
          assert rest[k] in multiset(tail);
          var m :| 0 <= m < |tail| && tail[m] == rest[k];
          assert ws[m + 1] == rest[k];
        }
      }
      SortedCons(f, ws[0], rest);
    }
  }

  /**
   * `sort.Slice` with the comparison of `Top10`, as an insertion sort: the
   * first word inserted into the sorted rest.
   */
  function SortSlice(f: map<string, int>, ws: seq<string>): (r: seq<string>)
    ensures |r| == |ws|
  {
    if ws == [] then [] else Insert(f, ws[0], SortSlice(f, ws[1..]))
  }

  /** Sorting reorders the words, losing and adding none. */
  lemma {:induction false} SortSlicePermutes(f: map<string, int>, ws: seq<string>)
    ensures multiset(SortSlice(f, ws)) == multiset(ws)
    decreases |ws|
  {
    if ws != [] {
      var rest := SortSlice(f, ws[1..]);
      SortSlicePermutes(f, ws[1..]);
      InsertPermutes(f, ws[0], rest);
      assert multiset(ws) == multiset(ws[1..]) + multiset{ws[0]} by {
        assert ws == [ws[0]] + ws[1..];
      }
    }
  }

  /** Distinct words come out in strictly increasing `Before` order. */
  lemma {:induction false} SortSliceSorted(f: map<string, int>, ws: seq<string>)
    requires forall i, j :: 0 <= i < j < |ws| ==> ws[i] != ws[j]
    ensures SortedBy(f, SortSlice(f, ws))
    decreases |ws|
  {
    if ws != [] {
      var tail := ws[1..];
      assert forall i, j :: 0 <= i < j < |tail| ==> tail[i] != tail[j] by {
        forall i, j | 0 <= i < j < |tail|
          ensures tail[i] != tail[j]
        {
          assert tail[i] == ws[i + 1] && tail[j] == ws[j + 1];
        }
      }
      SortSliceSorted(f, tail);
      SortSlicePermutes(f, tail);
      assert ws == [ws[0]] + tail;
      assert ws[0] !in multiset(tail);
      InsertSorted(f, ws[0], SortSlice(f, tail));
    }
  }

  // ---------------------------------------------------------------------------
  // Top10
  // ---------------------------------------------------------------------------

  /** `a` ranks before `b` among the fields `ws`. */
  predicate Ranks(ws: seq<string>, a: string, b: string) {
    Before(Occurrences(ws, a), a, Occurrences(ws, b), b)
  }

  /**
   * `top` is the answer for the fields `ws`: as many counted words as there
   * are, up to ten, in rank order, and no counted word left out ranks before
   * one kept.
   */
  predicate IsTop10(ws: seq<string>, top: seq<string>) {
    && |top| == (if |Counted(ws)| < 10 then |Counted(ws)| else 10)
    && (forall k :: 0 <= k < |top| ==> top[k] in Counted(ws))
    && (forall i, j :: 0 <= i < j < |top| ==> Ranks(ws, top[i], top[j]))
    && (forall w, k :: w in Counted(ws) && w !in top && 0 <= k < |top| ==> Ranks(ws, top[k], w))
  }

  method Top10(input: string) returns (top: seq<string>)
    ensures IsTop10(Fields(input), top)
  {
    var words := Fields(input);
    var frequency := CountWords(words);
    var uniqueWords := KeysOf(frequency);
    var sorted := SortSlice(frequency, uniqueWords);
    SortSlicePermutes(frequency, uniqueWords);
    SortSliceSorted(frequency, uniqueWords);
    assert |sorted| == |frequency.Keys| by {
      assert |multiset(sorted)| == |multiset(uniqueWords)|;
    }
    forall x | x in frequency
      ensures x in sorted
    {
      assert x in multiset(uniqueWords);
    }
    forall k | 0 <= k < |sorted|
      ensures sorted[k] in frequency
    {
      assert sorted[k] in multiset(uniqueWords);
    }
    if |sorted| > 10 {
      top := sorted[..10];
    } else {
      top := sorted;
    }
    SortedPrefixIsTop10(words, frequency, sorted, top);
  }

  /** The counting loop of `Top10`: the counted words of `words`, each with its number of occurrences. */
  method CountWords(words: seq<string>) returns (frequency: map<string, int>)
    ensures frequency.Keys == Counted(words)
    ensures forall x :: x in frequency ==> frequency[x] == Occurrences(words, x)
  {
    frequency := map[];
    ghost var ts := Tokens(words);
    for i := 0 to |words|
      invariant Tally(frequency, ts, i)
    {
      var word := words[i];
      TokensAt(words, i);
      CountStep(ts, i, frequency);
      if word == "-" {
        continue;
      }
      var normalized := NormalizeWord(word);
      if normalized != [] {
        frequency := frequency[normalized := (if normalized in frequency then frequency[normalized] else 0) + 1];
      }
    }
  }

  /** The loop of `Top10` that collects the keys of `frequency`: each exactly once, in an order left open. */
  method KeysOf(frequency: map<string, int>) returns (uniqueWords: seq<string>)
    ensures forall w :: w in uniqueWords <==> w in frequency
    ensures forall i, j :: 0 <= i < j < |uniqueWords| ==> uniqueWords[i] != uniqueWords[j]
    ensures |uniqueWords| == |frequency.Keys|
  {
    uniqueWords := [];
    var rest := frequency.Keys;
    while rest != {}
      invariant rest <= frequency.Keys
      invariant forall w :: w in uniqueWords <==> w in frequency && w !in rest
      invariant forall i, j :: 0 <= i < j < |uniqueWords| ==> uniqueWords[i] != uniqueWords[j]
      invariant |uniqueWords| + |rest| == |frequency.Keys|
      decreases |rest|
    {
      var w :| w in rest;
      uniqueWords := uniqueWords + [w];
      rest := rest - {w};
    }
  }

  /** `f` holds the counted words among the first `n` tokens, each with its number of occurrences. */
  predicate Tally(f: map<string, int>, ts: seq<string>, n: nat)
    requires n <= |ts|
  {
    f.Keys == CountedIn(ts, n) && forall x {:trigger f[x]} :: x in f ==> f[x] == OccurrencesIn(ts, n, x)
  }

  /** Counting one more token: a word is counted once more, the empty token not at all. */
  lemma {:induction false} CountStep(ts: seq<string>, i: nat, f: map<string, int>)
    requires i < |ts| && Tally(f, ts, i)
    ensures ts[i] == [] ==> Tally(f, ts, i + 1)
    ensures ts[i] != [] ==> Tally(f[ts[i] := (if ts[i] in f then f[ts[i]] else 0) + 1], ts, i + 1)
  {
    var t := ts[i];
    if t != [] {
      CountedIffOccurs(ts, i, t);
    }
  }

  /** Sorted by the counts of the map, the words are in rank order. */
  lemma {:induction false} SortedRanks(ws: seq<string>, f: map<string, int>, sorted: seq<string>)
    requires forall x :: x in f ==> f[x] == Occurrences(ws, x)
    requires forall k :: 0 <= k < |sorted| ==> sorted[k] in f
    requires SortedBy(f, sorted)
    ensures forall i, j :: 0 <= i < j < |sorted| ==> Ranks(ws, sorted[i], sorted[j])
  {
    forall i, j | 0 <= i < j < |sorted|
      ensures Ranks(ws, sorted[i], sorted[j])
    {
      assert Freq(f, sorted[i]) == Occurrences(ws, sorted[i]);
      assert Freq(f, sorted[j]) == Occurrences(ws, sorted[j]);
    }
  }

  /** The first ten words (or all of them) of the counted words in `Before` order are the answer. */
  lemma {:induction false} SortedPrefixIsTop10(ws: seq<string>, f: map<string, int>, sorted: seq<string>, top: seq<string>)
    requires f.Keys == Counted(ws) && forall x :: x in f ==> f[x] == Occurrences(ws, x)
    requires forall k :: 0 <= k < |sorted| ==> sorted[k] in f
    requires forall x :: x in f ==> x in sorted
    requires |sorted| == |f.Keys| && SortedBy(f, sorted)
    requires top == if |sorted| > 10 then sorted[..10] else sorted
    ensures IsTop10(ws, top)
  {
    SortedRanks(ws, f, sorted);
    assert forall k :: 0 <= k < |top| ==> top[k] == sorted[k];
    forall w, k | w in Counted(ws) && w !in top && 0 <= k < |top|
      ensures Ranks(ws, top[k], w)
    {
      var p :| 0 <= p < |sorted| && sorted[p] == w;
      assert p >= |top|;
    }
  }

  // ---------------------------------------------------------------------------
  // Properties of the answer
  // ---------------------------------------------------------------------------

  lemma {:induction false} RanksIrreflexive(ws: seq<string>, a: string)
    ensures !Ranks(ws, a, a)
  {
    BeforeIrreflexive(Occurrences(ws, a), a);
  }

  /** The answer has no word twice. */
  lemma {:induction false} TopDistinct(ws: seq<string>, top: seq<string>)
    requires IsTop10(ws, top)
    ensures forall i, j :: 0 <= i < j < |top| ==> top[i] != top[j]
    ensures |top| <= 10
  {
    forall i, j | 0 <= i < j < |top|
      ensures top[i] != top[j]
    {
      RanksIrreflexive(ws, top[i]);
    }
  }

  /** Every word kept is counted at least as often as every counted word left out. */
  lemma {:induction false} TopCountsDominate(ws: seq<string>, top: seq<string>, w: string, k: int)
    requires IsTop10(ws, top)
    requires w in Counted(ws) && w !in top && 0 <= k < |top|
    ensures Occurrences(ws, top[k]) >= Occurrences(ws, w)
  {
  }

  /** Input with no words has the empty answer. */
  lemma {:induction false} NoWordsNoTop(input: string, top: seq<string>)
    requires forall j :: 0 <= j < |input| ==> IsSpace(input[j])
    requires IsTop10(Fields(input), top)
    ensures top == []
  {
    AllSpaceNoFields(input);
  }

  /** The `k`-th word of an answer ranks before every counted word that is not among the first `k`. */
  lemma {:induction false} KthRanksFirst(ws: seq<string>, top: seq<string>, k: int, w: string)
    requires IsTop10(ws, top) && 0 <= k < |top|
    requires w in Counted(ws) && w != top[k] && w !in top[..k]
    ensures Ranks(ws, top[k], w)
  {
    if w in top {
      var p :| 0 <= p < |top| && top[p] == w;
    }
  }

  /** The answer is determined by the input: two answers for the same fields are equal. */
  lemma {:induction false} TopUnique(ws: seq<string>, t1: seq<string>, t2: seq<string>)
    requires IsTop10(ws, t1) && IsTop10(ws, t2)
    ensures t1 == t2
  {
    var k := 0;
    while k < |t1|
      invariant 0 <= k <= |t1| && t1[..k] == t2[..k]
    {
      if t1[k] != t2[k] {
        TopDistinct(ws, t2);
        assert t2[k] !in t2[..k];
        KthRanksFirst(ws, t1, k, t2[k]);
        assert t1[k] !in t1[..k] by {
          TopDistinct(ws, t1);
        }
        KthRanksFirst(ws, t2, k, t1[k]);
        BeforeAsymmetric(Occurrences(ws, t1[k]), t1[k], Occurrences(ws, t2[k]), t2[k]);
        assert false;
      }
      assert t1[..k + 1] == t1[..k] + [t1[k]];
      assert t2[..k + 1] == t2[..k] + [t2[k]];
      k := k + 1;
    }
    assert t1 == t1[..k] && t2 == t2[..k];
  }
}
