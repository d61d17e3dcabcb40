/** The fixed-size buffer that log lines are collected in. */
module LogBuffer {

  /** What append makes of the contents: a line that does not leave at least one byte free is dropped whole. */
  function Appended(contents: string, line: string, size: nat): (r: string) {
    if |contents| <= size && size - |contents| > |line| then contents + line else contents
  }

  class FixedBuffer {
    const data: array<char>
    var cur: nat

    ghost predicate Valid()
      reads this
    {
      cur <= data.Length
    }

    ghost function Contents(): (s: string)
      requires Valid()
      reads this, data
    {
      data[..cur]
    }

    constructor (size: nat)
      ensures Valid() && fresh(data) && data.Length == size && Contents() == ""
    {
      data := new char[size](_ => '\0');
      cur := 0;
    }

    function Length(): (n: nat)
      requires Valid()
      reads this, data
      ensures n == |Contents()|
    {
      cur
    }

    function Avail(): (n: nat)
      requires Valid()
      reads this, data
      ensures |Contents()| + n == data.Length
    {
      data.Length - cur
    }

    method Append(buf: string)
      requires Valid()
      modifies this, data
      ensures Valid() && Contents() == Appended(old(Contents()), buf, data.Length)
    {
      if Avail() > |buf| {
        for i := 0 to |buf|
          invariant cur == old(cur) && cur + |buf| < data.Length
          invariant data[..cur] == old(data[..cur]) && data[cur..cur + i] == buf[..i]
        {
          data[cur + i] := buf[i];
        }
        cur := cur + |buf|;
        assert data[..cur] == data[..old(cur)] + data[old(cur)..cur];
      }
    }

    method Reset()
      requires Valid()
      modifies this
      ensures Valid() && Contents() == ""
    {
      cur := 0;
    }
  }
}
