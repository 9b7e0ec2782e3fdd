/** Text helpers over `string` (a sequence of Unicode scalar values). */
module Strings {

  /** `p` is a prefix of `s` (Rust's `str::starts_with`). */
  predicate StartsWith(s: string, p: string) {
    |p| <= |s| && s[..|p|] == p
  }

  /** `q` is a suffix of `s` (Rust's `str::ends_with`). */
  predicate EndsWith(s: string, q: string) {
    |q| <= |s| && s[|s| - |q|..] == q
  }

  /** `t` occurs somewhere in `s` (Rust's `str::contains`). */
  predicate Contains(s: string, t: string)
    decreases |s|
  {
    StartsWith(s, t) || (|s| > 0 && Contains(s[1..], t))
  }

  /** Every string contains the empty string. */
  lemma ContainsEmpty(s: string)
    ensures Contains(s, "")
  {
  }

  /** An occurrence at offset `i` is found by `Contains`. */
  lemma {:induction false} ContainsAt(s: string, t: string, i: nat)
    requires i + |t| <= |s| && s[i..i + |t|] == t
    ensures Contains(s, t)
    decreases i
  {
    if i > 0 {
      assert s[1..][i - 1..i - 1 + |t|] == s[i..i + |t|];
      ContainsAt(s[1..], t, i - 1);
    }
  }

  /** The characters of `s` that satisfy `sep`, in order. */
  function Separators(s: string, sep: char -> bool): (r: string)
    ensures |r| <= |s|
    ensures forall i :: 0 <= i < |r| ==> sep(r[i])
  {
    if |s| == 0 then ""
    else if sep(s[0]) then [s[0]] + Separators(s[1..], sep)
    else Separators(s[1..], sep)
  }

  /** No character of `t` satisfies `sep`. */
  predicate Free(t: string, sep: char -> bool) {
    forall i :: 0 <= i < |t| ==> !sep(t[i])
  }

  /**
   * The pieces of `s` between characters satisfying `sep` (Rust's
   * `str::split` with a character set): empty pieces are kept, so there is
   * always one piece more than there are separators.
   */
  function SplitBy(s: string, sep: char -> bool): (r: seq<string>)
    ensures |r| == |Separators(s, sep)| + 1
    ensures forall k :: 0 <= k < |r| ==> Free(r[k], sep)
    decreases |s|
  {
    if |s| == 0 then [""]
    else
      var rest := SplitBy(s[1..], sep);
      if sep(s[0]) then [""] + rest
      else [[s[0]] + rest[0]] + rest[1..]
  }

  /** A piece free of separators splits into itself. */
  lemma {:induction false} SplitFree(a: string, sep: char -> bool)
    requires Free(a, sep)
    ensures SplitBy(a, sep) == [a]
    decreases |a|
  {
    if |a| > 0 {
      assert !sep(a[0]);
      assert Free(a[1..], sep) by {
        forall i | 0 <= i < |a[1..]| ensures !sep(a[1..][i]) {
          assert a[1..][i] == a[i + 1];
        }
      }
      SplitFree(a[1..], sep);
      assert [a[0]] + a[1..] == a;
    }
  }

  /** A separator-free prefix followed by a separator becomes the first piece. */
  lemma {:induction false} SplitAfterPiece(a: string, c: char, b: string, sep: char -> bool)
    requires Free(a, sep) && sep(c)
    ensures SplitBy(a + [c] + b, sep) == [a] + SplitBy(b, sep)
    decreases |a|
  {
    if |a| == 0 {
      assert (a + [c] + b)[1..] == b;
    } else {
      var s := a + [c] + b;
      assert s[0] == a[0] && !sep(a[0]);
      assert s[1..] == a[1..] + [c] + b;
      assert Free(a[1..], sep) by {
        forall i | 0 <= i < |a[1..]| ensures !sep(a[1..][i]) {
          assert a[1..][i] == a[i + 1];
        }
      }
      SplitAfterPiece(a[1..], c, b, sep);
      assert [a[0]] + a[1..] == a;
    }
  }

  /** Re-inserts `seps[k]` between `parts[k]` and `parts[k + 1]`. */
  function Interleave(parts: seq<string>, seps: string): string
    requires |parts| == |seps| + 1
    decreases |seps|
  {
    if |seps| == 0 then parts[0]
    else parts[0] + [seps[0]] + Interleave(parts[1..], seps[1..])
  }

  /** A separator splits the text into the pieces of each side. */
  lemma {:induction false} SplitAtSeparator(a: string, c: char, b: string, sep: char -> bool)
    requires sep(c)
    ensures SplitBy(a + [c] + b, sep) == SplitBy(a, sep) + SplitBy(b, sep)
    decreases |a|
  {
    var s := a + [c] + b;
    if |a| == 0 {
      assert s[1..] == b;
    } else {
      assert s[0] == a[0];
      assert s[1..] == a[1..] + [c] + b;
      SplitAtSeparator(a[1..], c, b, sep);
    }
  }

  /** `t` occurs at `i` with a separator or an end of the text on each side. */
  predicate DelimitedAt(s: string, t: string, i: int, sep: char -> bool) {
    && 0 <= i && i + |t| <= |s| && s[i..i + |t|] == t
    && (i == 0 || sep(s[i - 1]))
    && (i + |t| == |s| || sep(s[i + |t|]))
  }

  /** A separator-free occurrence bounded by separators or ends is one of the pieces. */
  lemma DelimitedIsPiece(s: string, t: string, i: int, sep: char -> bool)
    requires Free(t, sep) && DelimitedAt(s, t, i, sep)
    ensures t in SplitBy(s, sep)
  {
    var right := s[i..];
    assert right[..|t|] == t;
    if i + |t| == |s| {
      assert right == t;
      SplitFree(t, sep);
    } else {
      assert right == t + [s[i + |t|]] + s[i + |t| + 1..];
      SplitAtSeparator(t, s[i + |t|], s[i + |t| + 1..], sep);
      SplitFree(t, sep);
    }
    if i > 0 {
      assert s == s[..i - 1] + [s[i - 1]] + right;
      SplitAtSeparator(s[..i - 1], s[i - 1], right, sep);
    } else {
      assert s == right;
    }
  }

  /** An occurrence after a separator is an occurrence in the whole text. */
  lemma DelimitedInTail(s: string, j: int, t: string, k: int, sep: char -> bool)
    requires 0 <= j < |s| && sep(s[j]) && DelimitedAt(s[j + 1..], t, k, sep)
    ensures DelimitedAt(s, t, j + 1 + k, sep)
  {
    var b := s[j + 1..];
    assert s[j + 1 + k..j + 1 + k + |t|] == b[k..k + |t|];
    if k > 0 {
      assert s[j + k] == b[k - 1];
    }
    if k + |t| < |b| {
      assert s[j + 1 + k + |t|] == b[k + |t|];
    }
  }

  /** Every piece occurs in the text bounded by separators or ends. */
  lemma {:induction false} PieceIsDelimited(s: string, t: string, sep: char -> bool)
    requires t in SplitBy(s, sep)
    ensures exists i :: DelimitedAt(s, t, i, sep)
    decreases |s|
  {
    var j := KeptFrom(s, (c: char) => !sep(c), 0);
    var a := s[..j];
    assert Free(a, sep);
    if j == |s| {
      assert a == s;
      SplitFree(s, sep);
      assert DelimitedAt(s, t, 0, sep);
    } else {
      var b := s[j + 1..];
      assert s == a + [s[j]] + b;
      SplitAfterPiece(a, s[j], b, sep);
      if t == a {
        assert DelimitedAt(s, t, 0, sep);
      } else {
        PieceIsDelimited(b, t, sep);
        var k :| DelimitedAt(b, t, k, sep);
        DelimitedInTail(s, j, t, k, sep);
      }
    }
  }

  /**
   * The pieces of a text are exactly its separator-free substrings that have
   * a separator or an end of the text on both sides.
   */
  lemma PieceIff(s: string, t: string, sep: char -> bool)
    ensures t in SplitBy(s, sep) <==> Free(t, sep) && exists i :: DelimitedAt(s, t, i, sep)
  {
    if t in SplitBy(s, sep) {
      PieceIsDelimited(s, t, sep);
    }
    if Free(t, sep) && exists i :: DelimitedAt(s, t, i, sep) {
      var i :| DelimitedAt(s, t, i, sep);
      DelimitedIsPiece(s, t, i, sep);
    }
  }

  /** Splitting loses nothing: the pieces and the separators rebuild the input. */
  lemma {:induction false} SplitRoundTrip(s: string, sep: char -> bool)
    ensures Interleave(SplitBy(s, sep), Separators(s, sep)) == s
    decreases |s|
  {
    if |s| > 0 {
      var rest := SplitBy(s[1..], sep);
      var seps := Separators(s[1..], sep);
      SplitRoundTrip(s[1..], sep);
      if sep(s[0]) {
        assert SplitBy(s, sep) == [""] + rest;
        assert Separators(s, sep) == [s[0]] + seps;
        assert ([""] + rest)[1..] == rest;
      } else {
        var parts := [[s[0]] + rest[0]] + rest[1..];
        assert SplitBy(s, sep) == parts;
        assert Separators(s, sep) == seps;
        if |seps| == 0 {
          assert Interleave(parts, seps) == [s[0]] + rest[0];
        } else {
          assert parts[1..] == rest[1..];
          assert Interleave(parts, seps) == [s[0]] + (rest[0] + [seps[0]] + Interleave(rest[1..], seps[1..]));
        }
      }
    }
  }

  /** Splitting an interleaving of separator-free pieces gives the pieces back. */
  lemma {:induction false} InterleaveSplit(parts: seq<string>, seps: string, sep: char -> bool)
    requires |parts| == |seps| + 1
    requires forall k :: 0 <= k < |parts| ==> Free(parts[k], sep)
    requires forall k :: 0 <= k < |seps| ==> sep(seps[k])
    ensures SplitBy(Interleave(parts, seps), sep) == parts
    decreases |seps|
  {
    if |seps| == 0 {
      SplitFree(parts[0], sep);
    } else {
      InterleaveSplit(parts[1..], seps[1..], sep);
      SplitAfterPiece(parts[0], seps[0], Interleave(parts[1..], seps[1..]), sep);
    }
  }

  /** The first index at or after `from` whose character is not dropped. */
  function KeptFrom(s: string, drop: char -> bool, from: nat): (n: nat)
    requires from <= |s|
    ensures from <= n <= |s|
    ensures n == |s| || !drop(s[n])
    ensures forall i :: from <= i < n ==> drop(s[i])
    decreases |s| - from
  {
    if from < |s| && drop(s[from]) then KeptFrom(s, drop, from + 1) else from
  }

  /** The end of the last character before `hi` (and not before `lo`) that is not dropped. */
  function KeptUntil(s: string, drop: char -> bool, lo: nat, hi: nat): (n: nat)
    requires lo <= hi <= |s|
    ensures lo <= n <= hi
    ensures n == lo || !drop(s[n - 1])
    ensures forall i :: n <= i < hi ==> drop(s[i])
    decreases hi
  {
    if lo < hi && drop(s[hi - 1]) then KeptUntil(s, drop, lo, hi - 1) else hi
  }

  /** Drops leading and trailing characters that satisfy `drop` (Rust's `trim_matches`). */
  function TrimBy(s: string, drop: char -> bool): (t: string)
    ensures exists a, b ::
              && 0 <= a <= b <= |s| && t == s[a..b]
              && (forall i :: 0 <= i < a ==> drop(s[i]))
              && (forall i :: b <= i < |s| ==> drop(s[i]))
    ensures |t| == 0 || (!drop(t[0]) && !drop(t[|t| - 1]))
  {
    var a := KeptFrom(s, drop, 0);
    var b := KeptUntil(s, drop, a, |s|);
    s[a..b]
  }
  /** The trimmed text is the slice between the first and the last kept character. */
  lemma TrimBySlice(s: string, drop: char -> bool)
    ensures var a := KeptFrom(s, drop, 0);
            TrimBy(s, drop) == s[a..KeptUntil(s, drop, a, |s|)]
  {
  }

  /** Lower-casing the trimmed text lower-cases that slice character by character. */
  lemma LowerTrimAt(s: string, drop: char -> bool)
    ensures var a := KeptFrom(s, drop, 0);
            var b := KeptUntil(s, drop, a, |s|);
            && |Lower(TrimBy(s, drop))| == b - a
            && (forall i :: 0 <= i < b - a ==> Lower(TrimBy(s, drop))[i] == LowerChar(s[a + i]))
  {
    var a := KeptFrom(s, drop, 0);
    var b := KeptUntil(s, drop, a, |s|);
    TrimBySlice(s, drop);
    assert Lower(TrimBy(s, drop)) == Lower(s[a..b]);
    LowerSlice(s, a, b);
  }

  /** Lower-casing a slice lower-cases the characters of the slice in place. */
  lemma LowerSlice(s: string, a: nat, b: nat)
    requires a <= b <= |s|
    ensures |Lower(s[a..b])| == b - a
    ensures forall i :: 0 <= i < b - a ==> Lower(s[a..b])[i] == LowerChar(s[a + i])
  {
    var t := s[a..b];
    assert forall i :: 0 <= i < b - a ==> t[i] == s[a + i];
  }

  /** Characters with the Unicode `White_Space` property (Rust's `char::is_whitespace`). */
  predicate IsWhitespace(c: char) {
    || ('\U{9}' <= c <= '\U{D}') || c == ' ' || c == '\U{85}' || c == '\U{A0}'
    || c == '\U{1680}' || ('\U{2000}' <= c <= '\U{200A}') || c == '\U{2028}'
    || c == '\U{2029}' || c == '\U{202F}' || c == '\U{205F}' || c == '\U{3000}'
  }

  /** ASCII upper-case letters mapped to lower case; every other character kept. */
  function LowerChar(c: char): char {
    if 'A' <= c <= 'Z' then (c as int + 32) as char else c
  }

  /** `LowerChar` applied to every character. */
  function Lower(s: string): (r: string)
    ensures |r| == |s|
    ensures forall i {:trigger r[i]} :: 0 <= i < |s| ==> r[i] == LowerChar(s[i])
  {
    if |s| == 0 then "" else [LowerChar(s[0])] + Lower(s[1..])
  }

  /** The number of bytes `c` takes in UTF-8. */
  function Utf8Width(c: char): (w: nat)
    ensures 1 <= w <= 4
    ensures w == 1 <==> c as int < 0x80
  {
    if c as int < 0x80 then 1
    else if c as int < 0x800 then 2
    else if c as int < 0x1_0000 then 3
    else 4
  }

  /** The number of bytes `s` takes in UTF-8 (Rust's `str::len`). */
  function ByteLen(s: string): (n: nat)
    ensures n >= |s|
    ensures n == |s| <==> forall i :: 0 <= i < |s| ==> s[i] as int < 0x80
  {
    if |s| == 0 then 0 else Utf8Width(s[0]) + ByteLen(s[1..])
  }

  /** Byte lengths add up over concatenation. */
  lemma {:induction false} ByteLenAppend(a: string, b: string)
    ensures ByteLen(a + b) == ByteLen(a) + ByteLen(b)
  {
    if |a| > 0 {
      assert (a + b)[1..] == a[1..] + b;
      ByteLenAppend(a[1..], b);
    } else {
      assert a + b == b;
    }
  }
}
