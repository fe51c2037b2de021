/** The JavaScript string helpers the tool relies on. */
module Text {

  /** `parts.join(sep)`: the parts, with `sep` between each two consecutive ones. */
  function Join(parts: seq<string>, sep: string): string
  {
    if |parts| == 0 then ""
    else if |parts| == 1 then parts[0]
    else parts[0] + sep + Join(parts[1..], sep)
  }

  /** One more step of `Join`, for a list of at least two parts. */
  lemma JoinCons(head: string, tail: seq<string>, sep: string)
    requires |tail| >= 1
    ensures Join([head] + tail, sep) == head + sep + Join(tail, sep)
  {
    assert ([head] + tail)[1..] == tail;
  }

  /** The position of the last `c` in `s`, or -1 when there is none
      (`s.lastIndexOf(c)`). */
  function LastIndexOf(s: string, c: char): (i: int)
    ensures -1 <= i < |s|
    ensures i >= 0 ==> s[i] == c
    ensures forall k :: i < k < |s| ==> s[k] != c
  {
    if s == [] then -1
    else if s[|s| - 1] == c then |s| - 1
    else LastIndexOf(s[..|s| - 1], c)
  }

  /** The last element of `s.split(c)`: what follows the last `c` in `s`, or
      all of `s` when it has none. */
  function LastPiece(s: string, c: char): (p: string)
    ensures |p| <= |s| && p == s[|s| - |p|..]
    ensures forall j :: 0 <= j < |p| ==> p[j] != c
    ensures |p| < |s| ==> s[|s| - |p| - 1] == c
  {
    s[LastIndexOf(s, c) + 1..]
  }
}
