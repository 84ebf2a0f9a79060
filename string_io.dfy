/** The part of Python's in-memory text stream (io.StringIO) that the miner uses: reading
    at a position, telling the position and seeking back to it. */
module StringIO {

  /** What `read(n)` returns at position `pos` of `text`: up to `n` characters (all the rest
      when `n` is negative), nothing at or past the end. */
  function Span(text: string, pos: nat, n: int): (r: string)
    ensures pos >= |text| ==> r == []
    ensures pos < |text| ==> pos + |r| <= |text| && r == text[pos..pos + |r|]
    ensures n >= 0 ==> |r| <= n
    ensures pos < |text| && pos + |r| < |text| ==> n >= 0 && |r| == n
  {
    if pos >= |text| then []
    else if n < 0 || pos + n > |text| then text[pos..]
    else text[pos..pos + n]
  }

  class StringBuffer {
    const text: string
    var pos: nat

    constructor (s: string)
      ensures text == s && pos == 0
    {
      text := s;
      pos := 0;
    }

    /** `read(n)`: returns what follows the position and moves the position past it. */
    method Read(n: int) returns (s: string)
      modifies this
      ensures s == Span(text, old(pos), n)
      ensures pos == old(pos) + |s|
    {
      s := Span(text, pos, n);
      pos := pos + |s|;
    }

    /** `tell()` */
    method Tell() returns (p: nat)
      ensures p == pos
    {
      p := pos;
    }

    /** `seek(p)` */
    method Seek(p: nat)
      modifies this
      ensures pos == p
    {
      pos := p;
    }
  }
}
