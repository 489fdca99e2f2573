/**
 * `Unpack` of hw02_unpack_string/unpack.go: a run-length decoder. Every
 * character of the input is an atom, except that a digit is a repeat count
 * for the atom before it and a backslash escapes a following backslash or
 * digit so that it becomes an atom itself. An atom followed by the count n
 * appears n times; a count of 0 deletes it.
 *
 * The input is a sequence of runes (`[]rune(str)`), the output a sequence of
 * characters. `Expand` states the grammar atom by atom; the method `Unpack`
 * is the loop of the source, with its `escaped` flag, its `prev` rune (NUL
 * meaning "no atom pending") and its output buffer, and is proved to compute
 * `Expand`.
 */
module UnpackString {
  import opened Wrappers

  /** The only error of the decoder, `ErrInvalidString`. */
  datatype UnpackError = ErrInvalidString

  /** The digits recognised as repeat counts: the ASCII digits. */
  predicate IsDigit(r: char) {
    '0' <= r <= '9'
  }

  /** `int(r - '0')`. */
  function DigitValue(r: char): (n: nat)
    requires IsDigit(r)
    ensures n <= 9
  {
    (r as int) - ('0' as int)
  }

  /** `n` copies of `c`. */
  function Repeat(c: char, n: nat): (s: string)
    ensures |s| == n
    ensures forall j :: 0 <= j < n ==> s[j] == c
  {
    if n == 0 then [] else Repeat(c, n - 1) + [c]
  }

  /** `p` in front of a successful result; an error stays an error. */
  function Prepend(p: string, r: Result<string, UnpackError>): Result<string, UnpackError> {
    match r
    case Ok(s) => Ok(p + s)
    case Err(e) => Err(e)
  }

  // ---------------------------------------------------------------------------
  // The grammar, atom by atom
  // ---------------------------------------------------------------------------

  /**
   * The decoding of `s`: empty input decodes to the empty string; a count
   * with no atom before it, a backslash followed by anything but a backslash
   * or a digit, and a trailing backslash are errors; otherwise an atom is
   * read and `AfterAtom` looks for its count.
   */
  function Expand(s: string): (r: Result<string, UnpackError>)
    ensures r.Ok? ==> |r.value| <= 9 * |s|
    decreases |s|, 0
  {
    if s == [] then Ok([])
    else if IsDigit(s[0]) then Err(ErrInvalidString)
    else if s[0] == '\\' then
      if |s| == 1 || !(s[1] == '\\' || IsDigit(s[1])) then Err(ErrInvalidString)
      else AfterAtom(s[1], s[2..])
    else AfterAtom(s[0], s[1..])
  }

  /**
   * The decoding of the atom `c` followed by `rest`: with a count `n` the atom
   * appears `n` times, without one once. The decoder marks "no atom pending"
   * with the NUL rune, so a NUL atom cannot take a count.
   */
  function AfterAtom(c: char, rest: string): (r: Result<string, UnpackError>)
    ensures r.Ok? ==> |r.value| <= 9 * |rest| + 1
    decreases |rest|, 1
  {
    if rest != [] && IsDigit(rest[0]) then
      if c == '\0' then Err(ErrInvalidString)
      else Prepend(Repeat(c, DigitValue(rest[0])), Expand(rest[1..]))
    else Prepend([c], Expand(rest))
  }

  /**
   * What decoding `rest` adds to the buffer `out` when the loop has `prev`
   * pending: nothing is pending when `prev` is NUL; otherwise `prev` is the
   * last character of `out` and may still take a count.
   */
  function Resume(out: string, prev: char, rest: string): Result<string, UnpackError>
    requires prev != '\0' ==> |out| > 0
  {
    if prev == '\0' then Prepend(out, Expand(rest))
    else Prepend(out[..|out| - 1], AfterAtom(prev, rest))
  }

  lemma {:induction false} PrependPrepend(a: string, b: string, r: Result<string, UnpackError>)
    ensures Prepend(a, Prepend(b, r)) == Prepend(a + b, r)
  {
    match r
    case Ok(s) => assert a + (b + s) == (a + b) + s;
    case Err(_) =>
  }

  // ---------------------------------------------------------------------------
  // The decoder loop
  // ---------------------------------------------------------------------------

  /** `Unpack`: the decoder loop computes the grammar's decoding, error for error. */
  method Unpack(str: string) returns (r: Result<string, UnpackError>)
    ensures r == Expand(str)
  {
    if str == [] {
      return Ok([]);
    }
    var runes := str;
    var result: string := [];
    var prev: char := '\0';
    var escaped := false;
    assert runes[0..] == str;
    match Expand(str) {
      case Ok(s) => assert [] + s == s;
      case Err(_) =>
    }
    for i := 0 to |runes|
      invariant escaped ==> 0 < i && runes[i - 1] == '\\' && Expand(str) == Prepend(result, Expand(runes[i - 1..]))
      invariant !escaped && prev != '\0' ==> |result| > 0 && result[|result| - 1] == prev
      invariant !escaped ==> Expand(str) == Resume(result, prev, runes[i..])
    {
      var r := runes[i];
      assert runes[i..][1..] == runes[i + 1..];
      if escaped {
        if r != '\\' && !IsDigit(r) {
          return Err(ErrInvalidString);
        }
        assert Expand(runes[i - 1..]) == AfterAtom(r, runes[i + 1..]) by {
          assert runes[i - 1..][2..] == runes[i + 1..];
        }
        PrependPrepend(result, [r], Expand(runes[i + 1..]));
        assert (result + [r])[..|result + [r]| - 1] == result;
        result := result + [r];
        prev := r;
        escaped := false;
        continue;
      }

      if r == '\\' {
        if prev != '\0' {
          PrependPrepend(result[..|result| - 1], [prev], Expand(runes[i..]));
          assert result[..|result| - 1] + [prev] == result;
        }
        escaped := true;
        continue;
      }

      if IsDigit(r) {
        if prev == '\0' {
          return Err(ErrInvalidString);
        }
        var repeatCount := DigitValue(r);
        PrependPrepend(result[..|result| - 1], Repeat(prev, repeatCount), Expand(runes[i + 1..]));
        if repeatCount > 0 {
          PrependPrepend(result, Repeat(prev, repeatCount - 1), Expand(runes[i + 1..]));
          assert result[..|result| - 1] + Repeat(prev, repeatCount) == result + Repeat(prev, repeatCount - 1) by {
            assert Repeat(prev, repeatCount) == Repeat(prev, repeatCount - 1) + [prev];
          }
          result := result + Repeat(prev, repeatCount - 1);
        } else {
          assert result[..|result| - 1] + [] == result[..|result| - 1];
          result := result[..|result| - 1];
        }
        prev := '\0';
        continue;
      }

      assert Expand(runes[i..]) == AfterAtom(r, runes[i + 1..]);
      if prev != '\0' {
        PrependPrepend(result[..|result| - 1], [prev], Expand(runes[i..]));
        assert result[..|result| - 1] + [prev] == result;
      }
      if r == '\0' {
        PrependPrepend(result, [r], Expand(runes[i + 1..]));
        if runes[i + 1..] != [] && IsDigit(runes[i + 1..][0]) {
          assert Expand(runes[i + 1..]) == Err(ErrInvalidString);
        }
      } else {
        assert (result + [r])[..|result + [r]| - 1] == result;
      }
      result := result + [r];
      prev := r;
    }

    if escaped {
      return Err(ErrInvalidString);
    }
    assert runes[|runes|..] == [];
    if prev != '\0' {
      PrependPrepend(result[..|result| - 1], [prev], Expand([]));
      assert result[..|result| - 1] + [prev] == result;
    }
    assert result + [] == result;
    return Ok(result);
  }

  // ---------------------------------------------------------------------------
  // Properties of the decoding
  // ---------------------------------------------------------------------------

  /** A character that is copied as it is: neither a digit nor a backslash. */
  predicate Plain(c: char) {
    !IsDigit(c) && c != '\\'
  }

  /** Empty input decodes to the empty string without error. */
  lemma {:induction false} EmptyInput()
    ensures Expand([]) == Ok([])
  {
  }

  /**
   * A count needs an atom before it: a digit first is an error, and so is a
   * second count right after a first one.
   */
  lemma {:induction false} CountWithoutAtom(c: char, d1: char, d2: char, rest: string)
    requires IsDigit(d1) && IsDigit(d2)
    ensures Expand([d1] + rest) == Err(ErrInvalidString)
    ensures Plain(c) ==> Expand([c, d1, d2] + rest) == Err(ErrInvalidString)
  {
    if Plain(c) {
      assert ([c, d1, d2] + rest)[1..] == [d1, d2] + rest;
      assert ([d1, d2] + rest)[1..] == [d2] + rest;
      assert Expand([d2] + rest) == Err(ErrInvalidString);
      assert Expand([c, d1, d2] + rest) == AfterAtom(c, [d1, d2] + rest);
    }
  }

  /** A plain atom `c` followed by the count `d` appears `d` times, then the rest follows. */
  lemma {:induction false} CountRepeats(c: char, d: char, rest: string)
    requires Plain(c) && c != '\0' && IsDigit(d)
    ensures Expand([c, d] + rest) == Prepend(Repeat(c, DigitValue(d)), Expand(rest))
    ensures DigitValue(d) == 0 ==> Expand([c, d] + rest) == Expand(rest)
  {
    assert ([c, d] + rest)[1..] == [d] + rest;
    assert ([d] + rest)[1..] == rest;
    match Expand(rest) {
      case Ok(t) => assert [] + t == t;
      case Err(_) =>
    }
  }

  /** A plain atom with no count after it is copied once. */
  lemma {:induction false} PlainCopiedOnce(c: char, rest: string)
    requires Plain(c) && (rest == [] || !IsDigit(rest[0]))
    ensures Expand([c] + rest) == Prepend([c], Expand(rest))
  {
    assert ([c] + rest)[1..] == rest;
  }

  /** A backslash followed by anything but a backslash or a digit is an error, and so is a trailing one. */
  lemma {:induction false} BadEscape(x: char, rest: string)
    requires Plain(x)
    ensures Expand(['\\', x] + rest) == Err(ErrInvalidString)
    ensures Expand(['\\']) == Err(ErrInvalidString)
  {
  }

  /** An escaped backslash or digit is an atom: it is copied once, or as many times as the count after it says. */
  lemma {:induction false} EscapedAtom(x: char, rest: string)
    requires x == '\\' || IsDigit(x)
    ensures rest == [] || !IsDigit(rest[0]) ==> Expand(['\\', x] + rest) == Prepend([x], Expand(rest))
    ensures rest != [] && IsDigit(rest[0]) ==>
              Expand(['\\', x] + rest) == Prepend(Repeat(x, DigitValue(rest[0])), Expand(rest[1..]))
  {
    assert (['\\', x] + rest)[2..] == rest;
  }

  /** Escaped 4 followed by the count 5 gives five 4s. */
  lemma {:induction false} EscapedDigitCounted()
    ensures Expand("\\45") == Ok("44444")
  {
    EscapedAtom('4', "5");
    assert "5"[1..] == [];
    assert Repeat('4', 5) == "44444";
    assert "\\45" == ['\\', '4'] + "5";
    assert "44444" + [] == "44444";
  }

  /** The decoder's NUL sentinel: a NUL atom is copied, but a count after it is an error. */
  lemma {:induction false} NulTakesNoCount(d: char, rest: string)
    requires IsDigit(d)
    ensures Expand(['\0', d] + rest) == Err(ErrInvalidString)
    ensures Expand(['\0']) == Ok(['\0'])
  {
    assert (['\0', d] + rest)[1..] == [d] + rest;
    assert ['\0'][1..] == [];
    assert Expand(['\0']) == Prepend(['\0'], Expand([]));
    assert ['\0'] + [] == ['\0'];
  }

  /** A string of plain characters decodes to itself. */
  lemma {:induction false} PlainStringCopied(s: string)
    requires forall j :: 0 <= j < |s| ==> Plain(s[j])
    ensures Expand(s) == Ok(s)
    decreases |s|
  {
    if s != [] {
      PlainStringCopied(s[1..]);
      assert [s[0]] + s[1..] == s;
    }
  }

  /** Appending an unpaired backslash to input that decodes makes it an error. */
  lemma {:induction false} TrailingBackslash(s: string)
    requires Expand(s).Ok?
    ensures Expand(s + ['\\']) == Err(ErrInvalidString)
    decreases |s|, 0
  {
    var t := s + ['\\'];
    if s == [] {
    } else if s[0] == '\\' {
      assert t[1] == s[1] && t[2..] == s[2..] + ['\\'];
      AtomThenTrailingBackslash(s[1], s[2..]);
    } else {
      assert t[0] == s[0] && t[1..] == s[1..] + ['\\'];
      AtomThenTrailingBackslash(s[0], s[1..]);
    }
  }

  lemma {:induction false} AtomThenTrailingBackslash(c: char, rest: string)
    requires AfterAtom(c, rest).Ok?
    ensures AfterAtom(c, rest + ['\\']) == Err(ErrInvalidString)
    decreases |rest|, 1
  {
    var t := rest + ['\\'];
    if rest != [] && IsDigit(rest[0]) {
      assert t[0] == rest[0] && t[1..] == rest[1..] + ['\\'];
      TrailingBackslash(rest[1..]);
    } else {
      assert t != [] && !IsDigit(t[0]);
      TrailingBackslash(rest);
    }
  }
}
