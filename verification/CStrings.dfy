/** Strings that end at the first NUL, over characters or bytes. */
module CStrings {

  /** The C string stored in a buffer: everything before the first NUL. */
  function CString<T(==)>(buf: seq<T>, nul: T): (r: seq<T>)
    ensures nul !in r && |r| <= |buf|
    ensures r == buf[..|r|] && (|r| < |buf| ==> buf[|r|] == nul)
  {
    if buf == [] || buf[0] == nul then [] else [buf[0]] + CString(buf[1..], nul)
  }

  /** Its length is the only one at which a NUL, or the end, comes after elements that are not NUL. */
  lemma {:induction false} CStringUnique<T>(buf: seq<T>, nul: T, n: nat)
    requires n <= |buf| && nul !in buf[..n] && (n < |buf| ==> buf[n] == nul)
    ensures CString(buf, nul) == buf[..n]
  {
    if n == 0 {
    } else {
      assert buf[0] == buf[..n][0] && buf[1..][..n - 1] == buf[..n][1..];
      CStringUnique(buf[1..], nul, n - 1);
    }
  }

  /** What follows the terminator does not matter. */
  lemma {:induction false} CStringTerminated<T>(s: seq<T>, nul: T, t: seq<T>)
    ensures CString(s + [nul] + t, nul) == CString(s, nul)
  {
    var r, buf := CString(s, nul), s + [nul] + t;
    assert buf[..|r|] == r;
    CStringUnique(buf, nul, |r|);
  }
}
