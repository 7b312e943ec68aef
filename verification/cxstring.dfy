/**
 * `cxstring<N>`: a fixed buffer of N characters plus a terminator, filled
 * from a character pointer and viewed as a string of length N. The runtime
 * header and the attribute plugin each define an identical copy.
 */
module CxStrings {

  class CxString {
    const n: nat
    var buf: array<char>

    /** `char buf[N + 1]{}`: N characters and a terminating NUL. */
    ghost predicate Valid()
      reads this, buf
    {
      buf.Length == n + 1 && buf[n] == '\0'
    }

    /**
     * Copies exactly `n` characters from `s` (the constructor's loop reads
     * `s[0]` to `s[N - 1]` and nothing else); the terminator stays NUL.
     */
    constructor (n: nat, s: seq<char>)
      requires n <= |s|
      ensures this.n == n && Valid() && fresh(buf)
      ensures buf[..n] == s[..n]
    {
      var b := new char[n + 1](_ => '\0');
      var i := 0;
      while i != n
        invariant 0 <= i <= n
        invariant b[..i] == s[..i]
        invariant b[n] == '\0'
      {
        b[i] := s[i];
        i := i + 1;
      }
      this.n := n;
      buf := b;
    }

    /** `operator std::string_view`: the first N characters, whatever they are. */
    function View(): (r: string)
      reads this, buf
      requires Valid()
      ensures |r| == n
      ensures forall i :: 0 <= i < n ==> r[i] == buf[i]
    {
      buf[..n]
    }

    /** `operator char const*`: the characters before the first NUL, which is at the latest the terminator. */
    function CString(): (r: string)
      reads this, buf
      requires Valid()
      ensures |r| <= n
      ensures forall i :: 0 <= i < |r| ==> r[i] == buf[i] && r[i] != '\0'
      ensures buf[|r|] == '\0'
    {
      UpToNul(buf[..], 0)
    }
  }

  /** The characters of `s` from `from` up to (not including) the first NUL. */
  function UpToNul(s: seq<char>, from: nat): (r: seq<char>)
    requires from < |s| && s[|s| - 1] == '\0'
    ensures from + |r| < |s| && s[from + |r|] == '\0'
    ensures forall i :: 0 <= i < |r| ==> r[i] == s[from + i] && r[i] != '\0'
    decreases |s| - from
  {
    if s[from] == '\0' then [] else [s[from]] + UpToNul(s, from + 1)
  }

  /** A literal of N characters yields a view equal to the literal. */
  method FromLiteral(lit: string) returns (view: string)
    ensures view == lit
  {
    var c := new CxString(|lit|, lit);
    view := c.View();
  }
}
