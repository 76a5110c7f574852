/** Text that ends at its first NUL, and the loops that copy as much of it as there is room for. */
module CStrings {

  /** The characters before the NUL, up to `room` of them. */
  function Cut<T(==)>(s: seq<T>, nul: T, room: int): (r: seq<T>)
    ensures |r| <= |s| && r == s[..|r|] && nul !in r && (|r| > 0 ==> |r| <= room)
    ensures |r| < room ==> |r| == |s| || s[|r|] == nul
  {
    if s == [] || s[0] == nul || room <= 0 then [] else [s[0]] + Cut(s[1..], nul, room - 1)
  }

  /** A copying loop that has not met its end has a character to copy. */
  lemma {:induction false} CutNext<T>(s: seq<T>, nul: T, room: int, i: nat)
    requires i < |s| && s[i] != nul && i < room && i <= |Cut(s, nul, room)|
    ensures i < |Cut(s, nul, room)| && Cut(s, nul, room)[i] == s[i]
  {
    if i > 0 {
      CutNext(s[1..], nul, room - 1, i - 1);
    }
  }

  /** One that has met it has copied everything. */
  lemma CutEnds<T>(s: seq<T>, nul: T, room: int, i: nat)
    requires i <= |Cut(s, nul, room)| && (i == |s| || s[i] == nul || i >= room)
    ensures i == |Cut(s, nul, room)|
  {
    var r := Cut(s, nul, room);
    assert forall j :: 0 <= j < |r| ==> r[j] == s[j] && r[j] != nul;
  }
}
