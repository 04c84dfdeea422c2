/** Slashes in path texts. */
module Paths {

  /** The first slash, or the length if there is none. */
  function SlashIndex(s: string): (i: nat)
    ensures i <= |s| && (i < |s| ==> s[i] == '/') && forall k :: 0 <= k < i ==> s[k] != '/'
  {
    if s == "" || s[0] == '/' then 0 else 1 + SlashIndex(s[1..])
  }

  lemma SlashAt(c: string, s: string)
    requires '/' !in c
    ensures SlashIndex(c + "/" + s) == |c|
  {
    var t := c + "/" + s;
    assert t[|c|] == '/';
    assert forall k :: 0 <= k < |c| ==> t[k] == c[k] && c[k] in c;
  }
}
