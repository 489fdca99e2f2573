/**
 * The string functions `Top10` of hw03_frequency_analysis/top.go relies on,
 * over sequences of characters: `strings.Fields`, `strings.ToLower`,
 * `strings.Trim` and Go's `<` on strings.
 */
module Words {

  /** `unicode.IsSpace`: the Latin-1 spaces and the other White_Space code points. */
  predicate IsSpace(c: char) {
    c == '\t' || c == '\n' || c == '\U{000B}' || c == '\U{000C}' || c == '\r' || c == ' ' ||
    c == '\U{0085}' || c == '\U{00A0}' || c == '\U{1680}' || ('\U{2000}' <= c <= '\U{200A}') ||
    c == '\U{2028}' || c == '\U{2029}' || c == '\U{202F}' || c == '\U{205F}' || c == '\U{3000}'
  }

  /** The longest prefix of `s` without a space. */
  function FirstField(s: string): (w: string)
    ensures |w| <= |s| && w == s[..|w|]
    ensures forall j :: 0 <= j < |w| ==> !IsSpace(w[j])
    ensures |w| < |s| ==> IsSpace(s[|w|])
  {
    if s == [] || IsSpace(s[0]) then [] else [s[0]] + FirstField(s[1..])
  }

  /** `strings.Fields`: the maximal runs of non-space characters of `s`, in order. */
  function Fields(s: string): (ws: seq<string>)
    ensures forall k :: 0 <= k < |ws| ==> ws[k] != [] && forall j :: 0 <= j < |ws[k]| ==> !IsSpace(ws[k][j])
    decreases |s|
  {
    if s == [] then []
    else if IsSpace(s[0]) then Fields(s[1..])
    else
      var w := FirstField(s);
      [w] + Fields(s[|w|..])
  }

  function Concat(ws: seq<string>): string {
    if ws == [] then [] else ws[0] + Concat(ws[1..])
  }

  /** The characters of `s` that are not spaces, in order. */
  function NonSpace(s: string): string {
    if s == [] then [] else (if IsSpace(s[0]) then [] else [s[0]]) + NonSpace(s[1..])
  }

  lemma {:induction false} ConcatCons(w: string, ws: seq<string>)
    ensures Concat([w] + ws) == w + Concat(ws)
  {
    assert ([w] + ws)[1..] == ws;
  }

  lemma {:induction false} NonSpaceAppend(a: string, b: string)
    ensures NonSpace(a + b) == NonSpace(a) + NonSpace(b)
    decreases |a|
  {
    if a != [] {
      assert (a + b)[1..] == a[1..] + b;
      NonSpaceAppend(a[1..], b);
    } else {
      assert a + b == b;
    }
  }

  lemma {:induction false} NonSpaceOfField(w: string)
    requires forall j :: 0 <= j < |w| ==> !IsSpace(w[j])
    ensures NonSpace(w) == w
    decreases |w|
  {
    if w != [] {
      NonSpaceOfField(w[1..]);
      assert [w[0]] + w[1..] == w;
    }
  }

  /** Fields loses only the spaces: joined back together they are the non-space characters of `s`. */
  lemma {:induction false} FieldsKeepNonSpace(s: string)
    ensures Concat(Fields(s)) == NonSpace(s)
    decreases |s|
  {
    if s == [] {
    } else if IsSpace(s[0]) {
      FieldsKeepNonSpace(s[1..]);
    } else {
      var w := FirstField(s);
      FieldsKeepNonSpace(s[|w|..]);
      ConcatCons(w, Fields(s[|w|..]));
      assert s == w + s[|w|..];
      NonSpaceAppend(w, s[|w|..]);
      NonSpaceOfField(w);
    }
  }

  /** A leading space starts no field: `strings.Fields` skips it. */
  lemma {:induction false} FieldsSkipSpace(c: char, rest: string)
    requires IsSpace(c)
    ensures Fields([c] + rest) == Fields(rest)
  {
    assert ([c] + rest)[1..] == rest;
  }

  /** A run of non-space characters followed by a space or the end is read whole. */
  lemma {:induction false} FirstFieldOfWord(w: string, rest: string)
    requires forall j :: 0 <= j < |w| ==> !IsSpace(w[j])
    requires rest == [] || IsSpace(rest[0])
    ensures FirstField(w + rest) == w
    decreases |w|
  {
    if w == [] {
      assert w + rest == rest;
    } else {
      assert (w + rest)[1..] == w[1..] + rest;
      FirstFieldOfWord(w[1..], rest);
      assert [w[0]] + w[1..] == w;
    }
  }

  /** A non-empty word followed by a space is one field; the fields of what follows come after it. */
  lemma {:induction false} FieldsSplitAtSpace(w: string, c: char, rest: string)
    requires w != [] && forall j :: 0 <= j < |w| ==> !IsSpace(w[j])
    requires IsSpace(c)
    ensures Fields(w + [c] + rest) == [w] + Fields(rest)
  {
    var s := w + [c] + rest;
    assert s == w + ([c] + rest);
    FirstFieldOfWord(w, [c] + rest);
    assert s[|w|..] == [c] + rest;
    FieldsSkipSpace(c, rest);
  }

  /** A non-empty word with no space in it is a single field. */
  lemma {:induction false} FieldsOfWord(w: string)
    requires w != [] && forall j :: 0 <= j < |w| ==> !IsSpace(w[j])
    ensures Fields(w) == [w]
  {
    FirstFieldOfWord(w, []);
    assert w + [] == w;
    assert w[|w|..] == [];
  }

  /** Input made only of spaces (or empty) has no fields. */
  lemma {:induction false} AllSpaceNoFields(s: string)
    requires forall j :: 0 <= j < |s| ==> IsSpace(s[j])
    ensures Fields(s) == []
    decreases |s|
  {
    if s != [] {
      AllSpaceNoFields(s[1..]);
    }
  }

  /** `strings.ToLower` on one character: ASCII upper case is mapped to lower case. */
  function LowerChar(c: char): char {
    if 'A' <= c <= 'Z' then (c as int + 32) as char else c
  }

  function ToLower(s: string): (r: string)
    ensures |r| == |s|
  {
    if s == [] then [] else [LowerChar(s[0])] + ToLower(s[1..])
  }

  /** `ToLower` lowers each character where it stands. */
  lemma {:induction false} ToLowerEach(s: string)
    ensures forall j :: 0 <= j < |s| ==> ToLower(s)[j] == LowerChar(s[j])
    decreases |s|
  {
    if s != [] {
      ToLowerEach(s[1..]);
    }
  }

  /** `strings.TrimLeft` with a set of characters. */
  function TrimLeft(s: string, cut: set<char>): (r: string)
    ensures |r| <= |s|
    ensures r != [] ==> r[0] !in cut
  {
    if s != [] && s[0] in cut then TrimLeft(s[1..], cut) else s
  }

  /** `TrimLeft` keeps a suffix of `s`. */
  lemma {:induction false} TrimLeftIsSuffix(s: string, cut: set<char>)
    ensures TrimLeft(s, cut) == s[|s| - |TrimLeft(s, cut)|..]
    decreases |s|
  {
    if s != [] && s[0] in cut {
      var t := s[1..];
      TrimLeftIsSuffix(t, cut);
      assert t[|t| - |TrimLeft(t, cut)|..] == s[|s| - |TrimLeft(t, cut)|..];
    }
  }

  /** What `TrimLeft` removes is made only of characters of the cut set. */
  lemma {:induction false} TrimLeftDropsCut(s: string, cut: set<char>)
    ensures forall j :: 0 <= j < |s| - |TrimLeft(s, cut)| ==> s[j] in cut
    decreases |s|
  {
    if s != [] && s[0] in cut {
      var t := s[1..];
      TrimLeftDropsCut(t, cut);
      forall j | 0 < j < |s| - |TrimLeft(s, cut)|
        ensures s[j] in cut
      {
        assert s[j] == t[j - 1];
      }
    }
  }

  /** `strings.TrimRight` with a set of characters. */
  function TrimRight(s: string, cut: set<char>): (r: string)
    ensures |r| <= |s|
    ensures r != [] ==> r[|r| - 1] !in cut
  {
    if s != [] && s[|s| - 1] in cut then TrimRight(s[..|s| - 1], cut) else s
  }

  /** `TrimRight` keeps a prefix of `s`. */
  lemma {:induction false} TrimRightIsPrefix(s: string, cut: set<char>)
    ensures TrimRight(s, cut) == s[..|TrimRight(s, cut)|]
    decreases |s|
  {
    if s != [] && s[|s| - 1] in cut {
      var t := s[..|s| - 1];
      TrimRightIsPrefix(t, cut);
      assert t[..|TrimRight(t, cut)|] == s[..|TrimRight(t, cut)|];
    }
  }

  /** What `TrimRight` removes is made only of characters of the cut set. */
  lemma {:induction false} TrimRightDropsCut(s: string, cut: set<char>)
    ensures forall j :: |TrimRight(s, cut)| <= j < |s| ==> s[j] in cut
    decreases |s|
  {
    if s != [] && s[|s| - 1] in cut {
      TrimRightDropsCut(s[..|s| - 1], cut);
    }
  }

  /** `strings.Trim`: both ends. */
  function Trim(s: string, cut: set<char>): (r: string)
    ensures |r| <= |s|
  {
    TrimRight(TrimLeft(s, cut), cut)
  }

  /** Trimming keeps a contiguous piece of `s`, the one that starts where `TrimLeft` stopped. */
  lemma {:induction false} TrimIsInner(s: string, cut: set<char>)
    ensures |s| - |TrimLeft(s, cut)| + |Trim(s, cut)| <= |s|
    ensures Trim(s, cut) == s[|s| - |TrimLeft(s, cut)|..|s| - |TrimLeft(s, cut)| + |Trim(s, cut)|]
  {
    var l := TrimLeft(s, cut);
    var r := TrimRight(l, cut);
    TrimLeftIsSuffix(s, cut);
    TrimRightIsPrefix(l, cut);
    assert s[|s| - |l|..][..|r|] == s[|s| - |l|..|s| - |l| + |r|];
  }

  /** The ends of a trimmed string are not in the cut set. */
  lemma {:induction false} TrimEnds(s: string, cut: set<char>)
    ensures Trim(s, cut) != [] ==> Trim(s, cut)[0] !in cut && Trim(s, cut)[|Trim(s, cut)| - 1] !in cut
  {
    TrimRightIsPrefix(TrimLeft(s, cut), cut);
  }

  /** Trimming a string whose ends are not in the cut set changes nothing. */
  lemma {:induction false} TrimNothingToCut(s: string, cut: set<char>)
    requires s != [] ==> s[0] !in cut && s[|s| - 1] !in cut
    ensures Trim(s, cut) == s
  {
  }

  /**
   * Go's `<` on strings: byte-wise comparison of UTF-8, which orders as the
   * code points do, so a sequence of characters compares character by
   * character, and a proper prefix comes first.
   */
  predicate LexLess(a: string, b: string)
    ensures LexLess(a, b) ==> a != b
  {
    if a == [] then b != []
    else if b == [] then false
    else if a[0] != b[0] then a[0] < b[0]
    else LexLess(a[1..], b[1..])
  }

  lemma {:induction false} LexIrreflexive(a: string)
    ensures !LexLess(a, a)
    decreases |a|
  {
    if a != [] {
      LexIrreflexive(a[1..]);
    }
  }

  lemma {:induction false} LexTransitive(a: string, b: string, c: string)
    requires LexLess(a, b) && LexLess(b, c)
    ensures LexLess(a, c)
    decreases |a|
  {
    if a != [] && b != [] && c != [] && a[0] == b[0] && b[0] == c[0] {
      LexTransitive(a[1..], b[1..], c[1..]);
    }
  }

  lemma {:induction false} LexTotal(a: string, b: string)
    requires a != b
    ensures LexLess(a, b) || LexLess(b, a)
    decreases |a|
  {
    if a != [] && b != [] && a[0] == b[0] {
      assert a == [a[0]] + a[1..] && b == [b[0]] + b[1..];
      LexTotal(a[1..], b[1..]);
    }
  }

  lemma {:induction false} LexAsymmetric(a: string, b: string)
    requires LexLess(a, b)
    ensures !LexLess(b, a)
  {
    if LexLess(b, a) {
      LexTransitive(a, b, a);
      LexIrreflexive(a);
    }
  }
}
