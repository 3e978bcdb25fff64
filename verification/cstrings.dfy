/** C strings in buffers: the bytes before the first null. */
module CStrings {

  ghost predicate NonZero(s: seq<int>)
  {
    forall i | 0 <= i < |s| :: s[i] != 0
  }

  /** The C string at the start of `s`: its bytes up to the first zero, or all of them */
  function CString(s: seq<int>): (r: seq<int>)
  {
    if s == [] || s[0] == 0 then [] else [s[0]] + CString(s[1..])
  }

  /** A string that was put in front of a null is read back, whatever follows. */
  lemma {:induction false} CStringOf(s: seq<int>, rest: seq<int>)
    requires NonZero(s)
    ensures CString(s + [0] + rest) == s
  {
    if s == [] {
      assert (s + [0] + rest)[0] == 0;
    } else {
      CStringOf(s[1..], rest);
      assert (s + [0] + rest)[1..] == s[1..] + [0] + rest;
    }
  }
}
