/**
The growable string and list of include/netcdf_vutils.h.

Whatever the number of expansions, the operations on an extendible string are the corresponding
edits of a character sequence, and the string stays nul-terminated.
*/
module VUtils {
  import opened Wrappers

  const VSTRALLOC: nat := 64
  const NUL: char := '\0'

  // ---------- Edits of a sequence ----------

  function Inserted<T>(s: seq<T>, pos: nat, t: seq<T>): (r: seq<T>)
    requires pos <= |s|
  {
    s[..pos] + t + s[pos..]
  }

  function Removed<T>(s: seq<T>, pos: nat, n: nat): (r: seq<T>)
    requires pos <= |s|
  {
    if pos + n >= |s| then s[..pos] else s[..pos] + s[pos + n..]
  }

  /** Removing an inserted block gives back what was there. */
  lemma InsertThenRemove<T>(s: seq<T>, pos: nat, t: seq<T>)
    requires pos <= |s|
    ensures Removed(Inserted(s, pos, t), pos, |t|) == s
  {
    var r := Inserted(s, pos, t);
    assert r[..pos] == s[..pos] && r[pos + |t|..] == s[pos..];
    assert s == s[..pos] + s[pos..];
  }

  // strlen
  function StrLen(s: seq<char>): (r: nat)
    requires NUL in s
    ensures r < |s| && s[r] == NUL && NUL !in s[..r]
  {
    if s[0] == NUL then 0 else
      assert s == [s[0]] + s[1..];
      var r := StrLen(s[1..]);
      assert s[..r + 1] == [s[0]] + s[1..][..r];
      r + 1
  }

  // The characters meant by a pointer and a count, where 0 stands for up to the nul.
  function Given(s: seq<char>, n: nat): (r: seq<char>)
    requires if n == 0 then NUL in s else n <= |s|
  {
    if n == 0 then s[..StrLen(s)] else s[..n]
  }

  // memcpy of a string into a buffer
  method CopyIn(a: array<char>, at: nat, s: seq<char>)
    requires at + |s| <= a.Length
    modifies a
    ensures a[..] == old(a[..at]) + s + old(a[at + |s|..])
  {
    var i := 0;
    while i < |s|
      invariant 0 <= i <= |s|
      invariant a[..at] == old(a[..at]) && a[at..at + i] == s[..i] && a[at + i..] == old(a[at + i..])
    {
      a[at + i] := s[i];
      i := i + 1;
    }
    assert s[..i] == s;
  }

  // memmove within a buffer
  method MemMove(a: array<char>, to: nat, from: nat, n: nat)
    requires to + n <= a.Length && from + n <= a.Length
    modifies a
    ensures a[..] == old(a[..to]) + old(a[from..from + n]) + old(a[to + n..])
  {
    var moved := a[from..from + n];
    CopyIn(a, to, moved);
  }

  // memmove and memcpy of vsinsertn: the text of length `len` with s put in at pos.
  method InsertIn(a: array<char>, len: nat, pos: nat, s: seq<char>)
    requires pos <= len && len + |s| <= a.Length
    modifies a
    ensures a[..len + |s|] == Inserted(old(a[..len]), pos, s)
  {
    ghost var was := a[..];
    if pos < len {
      MemMove(a, pos + |s|, pos, len - pos);
    }
    ghost var moved := a[..];
    assert moved == was[..pos + |s|] + was[pos..len] + was[len + |s|..];
    CopyIn(a, pos, s);
    InsertedInTwoSteps(was, moved, a[..], len, pos, s);
  }

  lemma InsertedInTwoSteps(was: seq<char>, moved: seq<char>, now: seq<char>, len: nat, pos: nat, s: seq<char>)
    requires pos <= len && len + |s| <= |was|
    requires moved == was[..pos + |s|] + was[pos..len] + was[len + |s|..]
    requires now == moved[..pos] + s + moved[pos + |s|..]
    ensures now[..len + |s|] == Inserted(was[..len], pos, s)
  {
    assert moved[..pos] == was[..pos];
    assert moved[pos + |s|..] == was[pos..len] + was[len + |s|..];
    assert was[..len][..pos] == was[..pos] && was[..len][pos..] == was[pos..len];
  }

  // memmove of vsremoven: the text of length `len` without n characters at pos.
  method RemoveIn(a: array<char>, len: nat, pos: nat, n: nat)
    requires pos + n < len <= a.Length
    modifies a
    ensures a[..len - n] == Removed(old(a[..len]), pos, n)
    ensures a[len..] == old(a[len..])
  {
    ghost var was := a[..];
    MemMove(a, pos, pos + n, len - (pos + n));
    ghost var done := a[..];
    assert done[..len - n] == was[..pos] + was[pos + n..len];
    assert was[..len][..pos] == was[..pos] && was[..len][pos + n..] == was[pos + n..len];
    assert a[..len - n] == done[..len - n] && a[len..] == done[len..] == was[len..];
  }

  // ---------- VString ----------

  class VString {
    var alloc: nat
    var length: nat
    var content: array?<char>

    // Between the steps of an operation: the buffer has room for a nul after `alloc` characters.
    ghost predicate Weak()
      reads this
    {
      && length <= alloc
      && (content == null <==> alloc == 0)
      && (content != null ==> content.Length == alloc + 1)
    }

    /** Nothing allocated yet, or a nul-terminated string with room to spare. */
    ghost predicate Valid()
      reads this, content
    {
      Weak() && (content != null ==> length < alloc && content[length] == NUL)
    }

    ghost function Contents(): (r: seq<char>)
      requires Weak()
      reads this, content
    {
      if content == null then [] else content[..length]
    }

    constructor ()
      ensures Valid() && Contents() == []
    {
      alloc, length, content := 0, 0, null;
    }

    method Expand()
      requires Weak()
      modifies this
      ensures Weak() && fresh(content) && alloc == old(alloc) + VSTRALLOC && length == old(length)
      ensures Contents() == old(Contents())
    {
      var newsz := alloc + VSTRALLOC;
      var newcontent := new char[newsz + 1](_ => NUL);
      if alloc > 0 && length > 0 && content != null {
        CopyIn(newcontent, 0, content[..length]);
      }
      newcontent[length] := NUL;
      content := newcontent;
      alloc := newsz;
    }

    method SetAlloc(newalloc: nat)
      requires Weak()
      modifies this
      ensures Weak() && alloc >= newalloc && alloc >= old(alloc) && length == old(length)
      ensures if old(alloc) >= newalloc then content == old(content) && alloc == old(alloc) else fresh(content)
      ensures Contents() == old(Contents())
    {
      while alloc < newalloc
        invariant Weak() && alloc >= old(alloc) && length == old(length)
        invariant if alloc == old(alloc) then content == old(content) else fresh(content) && old(alloc) < newalloc
        invariant Contents() == old(Contents())
        decreases newalloc - alloc
      {
        Expand();
      }
    }

    // vsnulterm
    method NulTerm()
      requires Weak()
      modifies this, content
      ensures Valid() && content != null && length == old(length) && alloc >= old(alloc)
      ensures Contents() == old(Contents())
      ensures content == old(content) || fresh(content)
    {
      SetAlloc(length + 1);
      content[length] := NUL;
    }

    /** vssetlength: what both lengths have in common is kept. */
    method SetLength(newlen: nat)
      requires Weak()
      modifies this, content
      ensures Valid() && length == newlen && content != null && alloc >= old(alloc)
      ensures newlen <= old(length) ==> Contents() == old(Contents())[..newlen]
      ensures newlen >= old(length) ==> Contents()[..old(length)] == old(Contents())
      ensures content == old(content) || fresh(content)
    {
      if newlen > length {
        SetAlloc(newlen + 1);
      }
      ghost var was := Contents();
      ghost var len := length;
      length := newlen;
      assert content != null ==> content[..len] == was;
      assert newlen <= len ==> Contents() == was[..newlen];
      assert newlen >= len && content != null ==> Contents()[..len] == content[..len];
      NulTerm();
    }

    /** vsappendn on an extendible string. */
    method Append(elem: seq<char>, n: nat)
      requires Valid() && if n == 0 then NUL in elem else n <= |elem|
      modifies this, content
      ensures Valid() && content != null && Contents() == old(Contents()) + Given(elem, n)
      ensures content == old(content) || fresh(content)
    {
      var s := Given(elem, n);
      SetAlloc(length + |s|);
      ghost var was := Contents();
      if content != null {
        CopyIn(content, length, s);
        assert content[..length + |s|] == was + s;
      }
      length := length + |s|;
      NulTerm();
    }

    // The two cases of vsinsertn for a position inside or at the end: make room, then copy in.
    method Insert(pos: nat, elem: seq<char>, n: nat)
      requires Valid() && pos <= length && if n == 0 then NUL in elem else n <= |elem|
      modifies this, content
      ensures Valid() && content != null && Contents() == Inserted(old(Contents()), pos, Given(elem, n))
      ensures content == old(content) || fresh(content)
    {
      var s := Given(elem, n);
      ghost var was := Contents();
      var vslen := length;
      SetAlloc(vslen + |s|);
      SetLength(vslen + |s|);
      assert content[..vslen] == was;
      InsertIn(content, vslen, pos, s);
      NulTerm();
    }

    /** vsremoven for a position inside or at the end. */
    method Remove(pos: nat, elide: nat)
      requires Valid() && pos <= length
      modifies this, content
      ensures Valid() && content != null && Contents() == Removed(old(Contents()), pos, elide)
      ensures content == old(content) || fresh(content)
    {
      ghost var was := Contents();
      if elide != 0 {
        var vslen := length;
        var srcpos := pos + elide;
        if srcpos >= vslen {
          SetLength(pos);
        } else {
          RemoveIn(content, vslen, pos, elide);
          SetLength(vslen - elide);
        }
      }
      NulTerm();
    }

    /** A nonempty block that is inserted and removed again leaves the string as it was. */
    method InsertAndRemove(pos: nat, elem: seq<char>, n: nat)
      requires Valid() && pos <= length && 0 < n <= |elem|
      modifies this, content
      ensures Valid() && Contents() == old(Contents())
    {
      Insert(pos, elem, n);
      InsertThenRemove(old(Contents()), pos, elem[..n]);
      Remove(pos, n);
    }
  }

  // ---------- VList ----------

  class VList<T(0)> {
    var alloc: nat
    var length: nat
    var content: array?<T>
    ghost var pushes: nat
    ghost var copies: nat       // elements copied by expansions so far

    ghost predicate Valid()
      reads this
    {
      && length <= alloc && length <= pushes
      && (content == null <==> alloc == 0)
      && (content != null ==> content.Length == alloc)
      && (alloc == 0 ==> copies == 0)
      && (alloc > 0 ==> copies < alloc < 2 * pushes)
    }

    ghost function Contents(): (r: seq<T>)
      requires Valid()
      reads this, content
    {
      if content == null then [] else content[..length]
    }

    constructor ()
      ensures Valid() && Contents() == [] && pushes == 0 && copies == 0
    {
      alloc, length, content, pushes, copies := 0, 0, null, 0, 0;
    }

    /** vlistpush; over all pushes, fewer than two elements are copied for each. */
    method Push(elem: T)
      requires Valid()
      modifies this, content
      ensures Valid() && Contents() == old(Contents()) + [elem] && pushes == old(pushes) + 1
      ensures copies <= 2 * pushes
      ensures content == old(content) || fresh(content)
    {
      pushes := pushes + 1;
      if alloc < length + 1 {
        Expand();
      }
      ghost var was := content[..length];
      content[length] := elem;
      length := length + 1;
      assert content[..length] == was + [elem];
    }

    // vlistexpand; one call makes room for a push, and none for less than that does anything.
    method Expand()
      requires length == alloc < pushes && (content == null <==> alloc == 0) && (content != null ==> content.Length == alloc)
      requires (alloc == 0 ==> copies == 0) && (alloc > 0 ==> copies < alloc)
      modifies this
      ensures content != null && fresh(content) && content.Length == alloc == 2 * length + 1 && alloc < 2 * pushes
      ensures length == old(length) && pushes == old(pushes) && copies == old(copies) + length < alloc
      ensures content[..length] == if old(content) == null then [] else old(content[..length])
    {
      var newsz := length * 2 + 1;
      var newcontent := new T[newsz];
      if content != null {
        var from, len := content, length;
        var i := 0;
        while i < len
          invariant 0 <= i <= len && newcontent[..i] == from[..i]
          modifies newcontent
        {
          newcontent[i] := from[i];
          i := i + 1;
        }
      }
      copies := copies + length;
      content := newcontent;
      alloc := newsz;
    }

    /** vlistfirst: takes the first element off, if there is one. */
    method First() returns (elem: Option<T>)
      requires Valid()
      modifies this, content
      ensures Valid() && content == old(content) && pushes == old(pushes) && copies == old(copies)
      ensures old(Contents()) == (if elem.None? then [] else [elem.value]) + Contents()
      ensures elem.None? <==> old(length) == 0
    {
      if length == 0 {
        return None;
      }
      elem := Some(content[0]);
      ShiftDown(content, length);
      length := length - 1;
    }
  }

  // Every element but the first moves down by one.
  method ShiftDown<T>(a: array<T>, len: nat)
    requires 0 < len <= a.Length
    modifies a
    ensures a[..len - 1] == old(a[1..len])
  {
    ghost var was := a[..];
    var i := 1;
    while i < len
      invariant 1 <= i <= len && a[..i - 1] == was[1..i] && a[i - 1..] == was[i - 1..]
    {
      a[i - 1] := a[i];
      i := i + 1;
    }
  }
}
