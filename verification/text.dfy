/**
  Substring search on strings, as used by the header checks
  (`String.contains`).  `Contains` is the executable scan; `Occurs` is the
  declarative meaning it is proved against.
 */
module Text {

  /** `needle` is a prefix of `s`. */
  predicate IsPrefix(needle: string, s: string) {
    |needle| <= |s| && s[..|needle|] == needle
  }

  /** `needle` occurs somewhere inside `hay`. */
  ghost predicate Occurs(needle: string, hay: string) {
    exists i :: 0 <= i <= |hay| && IsPrefix(needle, hay[i..])
  }

  /** Left-to-right scan for `needle` in `hay`. */
  function Contains(hay: string, needle: string): bool
    decreases |hay|
  {
    if IsPrefix(needle, hay) then true
    else if |hay| == 0 then false
    else Contains(hay[1..], needle)
  }

  /** The scan finds `needle` exactly when it occurs. */
  lemma {:induction false} ContainsIsOccurs(hay: string, needle: string)
    ensures Contains(hay, needle) <==> Occurs(needle, hay)
    decreases |hay|
  {
    if IsPrefix(needle, hay) {
      assert hay[0..] == hay;
    } else if |hay| == 0 {
      forall i | 0 <= i <= |hay|
        ensures !IsPrefix(needle, hay[i..])
      {
        assert hay[i..] == hay;
      }
    } else {
      ContainsIsOccurs(hay[1..], needle);
      if Occurs(needle, hay) {
        var i :| 0 <= i <= |hay| && IsPrefix(needle, hay[i..]);
        assert i != 0 by { assert hay[0..] == hay; }
        assert hay[1..][i - 1..] == hay[i..];
      }
      if Occurs(needle, hay[1..]) {
        var i :| 0 <= i <= |hay[1..]| && IsPrefix(needle, hay[1..][i..]);
        assert hay[1..][i..] == hay[i + 1..];
      }
    }
  }
}
