/**
 * Answers typed at a prompt: the line read from standard input is trimmed
 * of surrounding whitespace and lower-cased before it is compared.
 */
module Console {
  import opened Strings

  /**
   * The answer as the prompt reader returns it: the line between leading
   * and trailing whitespace, lower-cased letter by letter.
   */
  function Normalise(line: string): (r: string)
    ensures |r| <= |line|
    ensures |r| == 0 || (!IsWhitespace(r[0]) && !IsWhitespace(r[|r| - 1]))
    ensures forall i :: 0 <= i < |r| ==> !('A' <= r[i] <= 'Z')
  {
    Lower(TrimBy(line, IsWhitespace))
  }

  /**
   * The answer is the slice `line[a..b]` between the first and the last
   * character that is not whitespace, each character lower-cased in place;
   * only whitespace lies outside that slice.
   */
  lemma NormaliseIsTrimmedSlice(line: string)
    ensures var a := KeptFrom(line, IsWhitespace, 0);
            var b := KeptUntil(line, IsWhitespace, a, |line|);
            && |Normalise(line)| == b - a
            && (forall i :: 0 <= i < b - a ==> Normalise(line)[i] == LowerChar(line[a + i]))
            && (forall i :: 0 <= i < a ==> IsWhitespace(line[i]))
            && (forall i :: b <= i < |line| ==> IsWhitespace(line[i]))
  {
    LowerTrimAt(line, IsWhitespace);
  }

  /** A line that is one `y` or `Y` amid whitespace. */
  predicate SaysYes(line: string) {
    exists i :: 0 <= i < |line| && line[i] in {'y', 'Y'}
      && (forall j :: 0 <= j < |line| && j != i ==> IsWhitespace(line[j]))
  }

  /** The installers' `answer == "y"`: exactly the lines that say yes. */
  lemma {:induction false} YesIff(line: string)
    ensures Normalise(line) == "y" <==> SaysYes(line)
  {
    var a := KeptFrom(line, IsWhitespace, 0);
    var b := KeptUntil(line, IsWhitespace, a, |line|);
    assert TrimBy(line, IsWhitespace) == line[a..b];
    if Normalise(line) == "y" {
      assert b == a + 1;
      assert LowerChar(line[a]) == 'y';
      forall j | 0 <= j < |line| && j != a ensures IsWhitespace(line[j]) {
        if j > a { assert b <= j; }
      }
      assert SaysYes(line);
    }
    if SaysYes(line) {
      var i :| 0 <= i < |line| && line[i] in {'y', 'Y'}
        && (forall j :: 0 <= j < |line| && j != i ==> IsWhitespace(line[j]));
      assert !IsWhitespace(line[i]);
      assert a == i;
      assert b == i + 1;
      assert line[a..b] == [line[i]];
    }
  }

  /** Reading an answer that was already normalised changes nothing. */
  lemma NormaliseIdempotent(line: string)
    ensures Normalise(Normalise(line)) == Normalise(line)
  {
    var t := Normalise(line);
    var a := KeptFrom(t, IsWhitespace, 0);
    if |t| > 0 {
      assert a == 0;
      var b := KeptUntil(t, IsWhitespace, a, |t|);
      assert b == |t|;
      assert t[a..b] == t;
    }
    assert TrimBy(t, IsWhitespace) == t;
    assert Lower(t) == t;
  }
}
