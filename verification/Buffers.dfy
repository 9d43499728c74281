/** The fixed character arrays that the programs read into, with the C library calls made on them. */
module CBuffers {
  import opened CStrings

  const MSG_MAX_SIZE: nat := 1024

  /** As much of a text as fits the buffer. */
  function Window(data: string): string {
    if |data| <= MSG_MAX_SIZE then data else data[..MSG_MAX_SIZE]
  }

  lemma WindowStarts(text: string, unread: string)
    requires |text| <= MSG_MAX_SIZE
    ensures |Window(text + unread)| >= |text| && Window(text + unread)[..|text|] == text
    ensures |text| == MSG_MAX_SIZE || unread == "" ==> Window(text + unread) == text
  {
    if unread == "" { NoTail(text); }
    assert (text + unread)[..|text|] == text;
  }

  /** The text in front of the first NUL. */
  function CStr(cells: seq<char>): (s: string)
    ensures |s| <= |cells| && s == cells[..|s|] && Free(s, '\0')
    ensures |s| < |cells| ==> cells[|s|] == '\0'
  {
    cells[..Find(cells, '\0')]
  }

  lemma CStrIs(cells: seq<char>, s: string)
    requires Free(s, '\0') && |s| < |cells| && cells[..|s|] == s && cells[|s|] == '\0'
    ensures CStr(cells) == s
  {
    FindIs(cells, '\0', |s|);
  }

  /** `char buffer[MSG_MAX_SIZE+1]`, holding a terminated text. */
  class CBuffer {
    const cells: array<char>

    ghost predicate Valid()
      reads this, cells
    {
      cells.Length == MSG_MAX_SIZE + 1 && |Text()| <= MSG_MAX_SIZE
    }

    /** The C string that starts at `buffer`. */
    function Text(): string
      reads cells
    {
      CStr(cells[..])
    }

    /** The C string that starts at `buffer + k`. */
    function TextAt(k: nat): string
      requires k <= cells.Length
      reads cells
    {
      CStr(cells[k..])
    }

    constructor ()
      ensures Valid() && fresh(cells) && Text() == ""
    {
      cells := new char[MSG_MAX_SIZE + 1](_ => '\0');
      new;
      CStrIs(cells[..], "");
    }

    /** Inside the text, the string at `buffer + k` is a suffix of it. */
    lemma Suffix(k: nat)
      requires Valid() && k <= |Text()|
      ensures TextAt(k) == Text()[k..]
    {
      var s := Text();
      assert cells[k..][..|s| - k] == s[k..];
      CStrIs(cells[k..], s[k..]);
    }

    /** `read(fd, buffer + strlen(buffer), n)` that delivered `chunk`, then `buffer[len + n] = 0`. */
    method Append(chunk: string)
      requires Valid() && Free(chunk, '\0') && |Text()| + |chunk| <= MSG_MAX_SIZE
      modifies cells
      ensures Valid() && Text() == old(Text()) + chunk
    {
      var len := |Text()|;
      for i := 0 to |chunk|
        invariant cells[..len] == old(cells[..len])
        invariant cells[len..len + i] == chunk[..i]
      {
        cells[len + i] := chunk[i];
      }
      cells[len + |chunk|] := '\0';
      assert cells[..len + |chunk|] == cells[..len] + cells[len..len + |chunk|];
      CStrIs(cells[..], old(Text()) + chunk);
    }

    /** `sprintf(buffer, "%s", buffer + k)`: the text at `k` moves to the front. */
    method Shift(k: nat)
      requires Valid() && k <= MSG_MAX_SIZE && |TextAt(k)| <= MSG_MAX_SIZE - k
      modifies cells
      ensures Valid() && Text() == old(TextAt(k))
    {
      ghost var was := cells[..];
      var n := |TextAt(k)|;
      for i := 0 to n
        invariant forall j :: 0 <= j < i ==> cells[j] == was[k + j]
        invariant forall j :: i <= j < cells.Length ==> cells[j] == was[j]
      {
        cells[i] := cells[k + i];
      }
      cells[n] := '\0';
      assert cells[..n] == was[k..][..n];
      CStrIs(cells[..], was[k..][..n]);
    }
  }
}
