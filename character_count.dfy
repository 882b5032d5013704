/** Counting the occurrences of one `char` in a `String`. */
module CharacterCount {
  import opened JavaLang

  /** The number of positions of `s` that hold `c`. */
  function Count(s: JString, c: Char16): (r: nat)
    ensures r <= |s|
  {
    if s == [] then 0
    else Count(s[..|s| - 1], c) + (if s[|s| - 1] == c then 1 else 0)
  }

  /** The positions of `s` that hold `c`. */
  ghost function Positions(s: JString, c: Char16): set<int>
  {
    set i | 0 <= i < |s| && s[i] == c
  }

  /** The count is exactly the number of matching positions. */
  lemma {:induction false} CountIsNumberOfPositions(s: JString, c: Char16)
    ensures Count(s, c) == |Positions(s, c)|
  {
    if s != [] {
      var n := |s| - 1;
      var init := s[..n];
      CountIsNumberOfPositions(init, c);
      if s[n] == c {
        assert Positions(s, c) == Positions(init, c) + {n};
        assert n !in Positions(init, c);
      } else {
        assert Positions(s, c) == Positions(init, c);
      }
    }
  }

  /** Counting is additive over concatenation, as a single left-to-right pass
      must be. */
  lemma {:induction false} CountAppend(s: JString, t: JString, c: Char16)
    ensures Count(s + t, c) == Count(s, c) + Count(t, c)
  {
    if t == [] {
      assert s + t == s;
    } else {
      var n := |t| - 1;
      CountAppend(s, t[..n], c);
      assert (s + t)[..|s + t| - 1] == s + t[..n];
    }
  }

  /** No occurrence at all (in particular, the empty string) gives 0, and only
      then. */
  lemma {:induction false} CountZeroIffAbsent(s: JString, c: Char16)
    ensures Count(s, c) == 0 <==> forall i | 0 <= i < |s| :: s[i] != c
  {
    if s != [] {
      var n := |s| - 1;
      CountZeroIffAbsent(s[..n], c);
      assert forall i | 0 <= i < n :: s[..n][i] == s[i];
    }
  }

  /** A string made only of `c` gives its length, and only such a string does. */
  lemma {:induction false} CountFullIffUniform(s: JString, c: Char16)
    ensures Count(s, c) == |s| <==> forall i | 0 <= i < |s| :: s[i] == c
  {
    if s != [] {
      var n := |s| - 1;
      CountFullIffUniform(s[..n], c);
      assert forall i | 0 <= i < n :: s[..n][i] == s[i];
    }
  }

  /** Java's loop: an `int` index and an `int` counter, scanning left to right.
      The precondition is what the `String` type guarantees (its length is an
      `int`); with it the counter provably never wraps around. The result is
      widened to `long`. */
  method CountCharacters(source: JString, characterToFind: Char16) returns (count: int)
    requires |source| <= INT_MAX
    ensures count == Count(source, characterToFind)
  {
    var n: Int32 := 0;
    var length := |source| as Int32;
    for i: Int32 := 0 to length
      invariant n as int == Count(source[..i], characterToFind)
    {
      assert source[..i + 1][..i] == source[..i];
      if characterToFind == source[i] {
        n := n + 1;
      }
    }
    assert source[..length] == source;
    count := n as int;
  }
}
