// The growable, NUL-terminated `string`. The buffer `data` holds
// capacity + 1 chars; the first `size` are the contents and data[size] is
// the terminator. A `const char *` argument is modelled by the chars before
// its terminator.
module Strings {
  import opened Wrappers
  import Hashing
  import opened Memory

  const NUL: char := 0 as char

  predicate NoNul(s: seq<char>)
  {
    forall i :: 0 <= i < |s| ==> s[i] != NUL
  }

  function Nuls(n: nat): (r: seq<char>)
    ensures |r| == n && forall i :: 0 <= i < n ==> r[i] == NUL
  {
    if n == 0 then [] else Nuls(n - 1) + [NUL]
  }

  /**
   * What `strncpy(dst, src, n)` writes into dst[0..n): the chars of src up
   * to its first NUL, then NULs.
   */
  function StrNCpy(src: seq<char>, n: nat): (r: seq<char>)
    requires n <= |src|
    ensures |r| == n
  {
    if n == 0 then []
    else if src[0] == NUL then Nuls(n)
    else [src[0]] + StrNCpy(src[1..], n - 1)
  }

  /** On text without an embedded NUL, strncpy is a plain copy. */
  lemma {:induction false} StrNCpyCopies(src: seq<char>, n: nat)
    requires n <= |src| && NoNul(src[..n])
    ensures StrNCpy(src, n) == src[..n]
  {
    if n > 0 {
      assert src[0] == src[..n][0];
      assert src[1..][..n - 1] == src[..n][1..];
      StrNCpyCopies(src[1..], n - 1);
    }
  }

  /** Once strncpy meets a NUL, the rest of what it writes is NUL. */
  lemma StrNCpyAtNul(src: seq<char>, n: nat)
    requires 0 < n <= |src| && src[0] == NUL
    ensures StrNCpy(src, n) == Nuls(n)
  {
  }

  function UpperChar(c: char): char
  {
    if 'a' <= c <= 'z' then (c as int - 32) as char else c
  }

  function LowerChar(c: char): char
  {
    if 'A' <= c <= 'Z' then (c as int + 32) as char else c
  }

  function Upper(s: seq<char>): (r: seq<char>)
    ensures |r| == |s|
  {
    seq(|s|, i requires 0 <= i < |s| => UpperChar(s[i]))
  }

  function Lower(s: seq<char>): (r: seq<char>)
    ensures |r| == |s|
  {
    seq(|s|, i requires 0 <= i < |s| => LowerChar(s[i]))
  }

  /** Uppercase touches letters only: it maps each a..z to A..Z and keeps the rest. */
  lemma UpperOnlyLetters(s: seq<char>, i: nat)
    requires i < |s|
    ensures 'a' <= s[i] <= 'z' ==> 'A' <= Upper(s)[i] <= 'Z' && Upper(s)[i] as int == s[i] as int - 32
    ensures !('a' <= s[i] <= 'z') ==> Upper(s)[i] == s[i]
  {
  }

  /** Lowercasing after uppercasing is the same as lowercasing. */
  lemma LowerAfterUpper(s: seq<char>)
    ensures Lower(Upper(s)) == Lower(s)
  {
    forall i | 0 <= i < |s|
      ensures Lower(Upper(s))[i] == Lower(s)[i]
    {
      if 'a' <= s[i] <= 'z' {
        assert Upper(s)[i] as int == s[i] as int - 32;
      }
    }
  }

  /** The chars of s in reverse order. */
  function Reversed(s: seq<char>): (r: seq<char>)
    ensures |r| == |s|
  {
    if s == [] then [] else Reversed(s[1..]) + [s[0]]
  }

  lemma {:induction false} ReversedAppend(s: seq<char>, t: seq<char>)
    ensures Reversed(s + t) == Reversed(t) + Reversed(s)
  {
    if s == [] {
      assert s + t == t;
    } else {
      assert (s + t)[1..] == s[1..] + t;
      ReversedAppend(s[1..], t);
    }
  }

  /** Reversing twice gives back the original. */
  lemma {:induction false} ReversedTwice(s: seq<char>)
    ensures Reversed(Reversed(s)) == s
  {
    if s != [] {
      ReversedTwice(s[1..]);
      ReversedAppend(Reversed(s[1..]), [s[0]]);
      assert Reversed([s[0]]) == [s[0]] by { assert [s[0]][1..] == []; }
    }
  }

  /**
   * Lexicographic order of the comparison operators: the first differing
   * char decides, compared as a signed C++ `char`; otherwise the shorter
   * string is smaller.
   */
  function LexLess(a: seq<char>, b: seq<char>): bool
  {
    if a == [] then b != []
    else if b == [] then false
    else if a[0] != b[0] then Hashing.SignedChar(a[0]) < Hashing.SignedChar(b[0])
    else LexLess(a[1..], b[1..])
  }

  lemma SignedCharInjective(c: char, d: char)
    requires c != d
    ensures Hashing.SignedChar(c) != Hashing.SignedChar(d)
  {
  }

  /** LexLess is a strict total order: exactly one of a < b, a == b, b < a. */
  lemma {:induction false} LexTrichotomy(a: seq<char>, b: seq<char>)
    ensures a == b ==> !LexLess(a, b) && !LexLess(b, a)
    ensures a != b ==> LexLess(a, b) != LexLess(b, a)
  {
    if a != [] && b != [] {
      if a[0] != b[0] {
        SignedCharInjective(a[0], b[0]);
      } else {
        LexTrichotomy(a[1..], b[1..]);
        if a != b {
          assert a == [a[0]] + a[1..] && b == [b[0]] + b[1..];
        }
      }
    }
  }

  /** A proper prefix is smaller. */
  lemma {:induction false} PrefixIsLess(a: seq<char>, b: seq<char>)
    requires |a| < |b| && a == b[..|a|]
    ensures LexLess(a, b)
  {
    if a != [] {
      assert a[1..] == b[1..][..|a| - 1];
      PrefixIsLess(a[1..], b[1..]);
    }
  }

  /**
   * The buffer layout `insert_sub_string` produces: the tail from pos is
   * moved right by |sub| (from a temporary copy), then sub is written at pos.
   */
  lemma InsertLayout(d0: seq<char>, text: seq<char>, sub: seq<char>, pos: nat, d1: seq<char>, d2: seq<char>)
    requires pos <= |text| && |text| + |sub| + 1 <= |d0|
    requires d0[..|text|] == text
    requires d1 == d0[..pos + |sub|] + d0[pos..|text| + 1] + d0[|text| + |sub| + 1..]
    requires d2 == d1[..pos] + sub + d1[pos + |sub|..]
    ensures d2[..|text| + |sub|] == text[..pos] + sub + text[pos..]
  {
    var want := text[..pos] + sub + text[pos..];
    forall k | 0 <= k < |text| + |sub|
      ensures d2[k] == want[k]
    {
      if k < pos {
        assert d2[k] == d1[k] == d0[k];
      } else if k < pos + |sub| {
        assert d2[k] == sub[k - pos];
      } else {
        assert d2[k] == d1[k] == d0[pos..|text| + 1][k - pos - |sub|];
        assert want[k] == text[pos..][k - pos - |sub|];
      }
    }
  }

  class Str {
    var data: array<char>
    var size: nat
    var capacity: nat

    ghost predicate Valid()
      reads this, data
    {
      data.Length == capacity + 1 && size <= capacity && data[size] == NUL
    }

    function Contents(): seq<char>
      reads this, data
      requires Valid()
    {
      data[..size]
    }

    /** The default constructor, which copies the C string " ". */
    constructor ()
      ensures Valid() && fresh(data) && Contents() == " " && capacity == 1
    {
      data := new char[2](_ => NUL);
      size, capacity := 1, 1;
      new;
      data[0] := ' ';
    }

    /** Construction from a C string; a null pointer gives the empty string. */
    constructor FromCString(s: Option<seq<char>>)
      requires s.Some? ==> NoNul(s.value)
      ensures Valid() && fresh(data)
      ensures Contents() == (if s.Some? then s.value else [])
      ensures capacity == |Contents()|
    {
      var text := if s.Some? then s.value else [];
      data := new char[|text| + 1](_ => NUL);
      size, capacity := |text|, |text|;
      new;
      StrNCpyCopies(text, |text|);
      WriteAt(data, 0, StrNCpy(text, |text|));
      data[size] := NUL;
      assert data[..size] == text;
    }

    /** Construction from an initializer list of chars. */
    constructor FromList(cs: seq<char>)
      ensures Valid() && fresh(data) && Contents() == cs && capacity == |cs|
    {
      data := new char[|cs| + 1](_ => NUL);
      size, capacity := |cs|, |cs|;
      new;
      WriteAt(data, 0, cs);
      data[size] := NUL;
    }

    /** `front()`: the first char, which is the terminator of an empty string. */
    function Front(): (c: char)
      reads this, data
      requires Valid()
      ensures Contents() != [] ==> c == Contents()[0]
      ensures Contents() == [] ==> c == NUL
    {
      data[0]
    }

    /** `back()`: the last char, or NUL when empty. */
    function Back(): (c: char)
      reads this, data
      requires Valid()
      ensures Contents() != [] ==> c == Contents()[|Contents()| - 1]
      ensures Contents() == [] ==> c == NUL
    {
      if size > 0 then data[size - 1] else NUL
    }

    /**
     * `operator[](i)`: any index up to the size, so the terminator is
     * readable; beyond it the access fault.
     */
    function At(i: nat): (r: Result<char>)
      reads this, data
      requires Valid()
      ensures r.Ok? <==> i <= |Contents()|
      ensures i < |Contents()| ==> r == Ok(Contents()[i])
      ensures i == |Contents()| ==> r == Ok(NUL)
    {
      if i <= size then Ok(data[i]) else Fail("out of range")
    }

    /** `allocate_resources(n)`: grows the buffer to n when n exceeds the capacity, never shrinks. */
    method AllocateResources(n: nat)
      requires Valid()
      modifies this, data
      ensures Valid() && size == old(size) && Contents() == old(Contents())
      ensures capacity == if n <= old(capacity) then old(capacity) else n
      ensures n <= old(capacity) ==> data == old(data) && data[..] == old(data[..])
      ensures old(capacity) < n ==> fresh(data)
    {
      if n <= capacity {
        return;
      }
      var a := new char[n + 1](_ => NUL);
      WriteAt(a, 0, data[..size + 1]);
      a[size] := NUL;
      data := a;
      capacity := n;
      assert data[..size] == old(data[..size]);
    }

    method Uppercase()
      requires Valid()
      modifies data
      ensures Valid() && Contents() == Upper(old(Contents()))
      ensures data[size..] == old(data[size..])
    {
      var i := 0;
      while i < size
        invariant 0 <= i <= size
        invariant data[..i] == Upper(old(data[..size]))[..i]
        invariant forall k :: i <= k < data.Length ==> data[k] == old(data[k])
      {
        if 'a' <= data[i] <= 'z' {
          data[i] := (data[i] as int - 32) as char;
        }
        i := i + 1;
      }
    }

    method Lowercase()
      requires Valid()
      modifies data
      ensures Valid() && Contents() == Lower(old(Contents()))
      ensures data[size..] == old(data[size..])
    {
      var i := 0;
      while i < size
        invariant 0 <= i <= size
        invariant data[..i] == Lower(old(data[..size]))[..i]
        invariant forall k :: i <= k < data.Length ==> data[k] == old(data[k])
      {
        if 'A' <= data[i] <= 'Z' {
          data[i] := (data[i] as int + 32) as char;
        }
        i := i + 1;
      }
    }

    /** `prepend(sub)`: the result is sub followed by the old contents. */
    method Prepend(sub: seq<char>)
      requires Valid() && NoNul(sub)
      modifies this, data
      ensures Valid() && Contents() == sub + old(Contents())
      ensures capacity == if |sub| + old(size) <= old(capacity) then old(capacity) else |sub| + old(size)
    {
      var newSize := size + |sub|;
      AllocateResources(newSize);
      var temp := data[..size + 1];
      assert temp[..size] == old(Contents());
      ghost var d0 := data[..];
      WriteAt(data, 0, sub);
      ghost var d1 := data[..];
      WriteAt(data, |sub|, temp);
      ghost var d2 := data[..];
      Prepended(d0, d1, d2, sub, temp);
      size := newSize;
      data[size] := NUL;
      assert data[..size] == d2[..size];
    }

    /** Writing sub at the front and then temp right after it leaves sub and all but the last of temp in front. */
    static lemma Prepended(d0: seq<char>, d1: seq<char>, d2: seq<char>, sub: seq<char>, temp: seq<char>)
      requires temp != [] && |sub| + |temp| <= |d0|
      requires d1 == d0[..0] + sub + d0[|sub|..]
      requires d2 == d1[..|sub|] + temp + d1[|sub| + |temp|..]
      ensures d2[..|sub| + |temp| - 1] == sub + temp[..|temp| - 1]
    {
      assert d1[..|sub|] == sub;
    }

    /**
     * `insert_sub_string(sub, pos)`: the fault when pos is past the end,
     * otherwise old[..pos] + sub + old[pos..].
     */
    method InsertSubString(sub: seq<char>, pos: nat) returns (ok: bool)
      requires Valid() && NoNul(sub)
      modifies this, data
      ensures Valid()
      ensures ok <==> pos <= old(size)
      ensures !ok ==> data == old(data) && size == old(size) && capacity == old(capacity) && data[..] == old(data[..])
      ensures ok ==> Contents() == old(Contents())[..pos] + sub + old(Contents())[pos..]
      ensures ok ==> capacity == if |sub| + old(size) <= old(capacity) then old(capacity) else |sub| + old(size)
    {
      if pos > size {
        return false;
      }
      var newSize := size + |sub|;
      AllocateResources(newSize);
      ghost var text := data[..size];
      ghost var d0 := data[..];
      var temp := data[..size + 1];
      WriteAt(data, pos + |sub|, temp[pos..]);
      ghost var d1 := data[..];
      WriteAt(data, pos, sub);
      InsertLayout(d0, text, sub, pos, d1, data[..]);
      size := newSize;
      data[size] := NUL;
      return true;
    }

    /**
     * `sub_string(start, end)`: the fault unless start <= end <= size,
     * otherwise a new string of the chars in [start, end) as strncpy copies
     * them. The receiver is not changed.
     */
    function SubString(start: nat, end: nat): (r: Result<seq<char>>)
      reads this, data
      requires Valid()
      ensures r.Ok? <==> start <= end <= |Contents()|
      ensures r.Ok? ==> |r.value| == end - start
      ensures r.Ok? && NoNul(Contents()) ==> r.value == Contents()[start..end]
    {
      if start > size || end > size || start > end then Fail("out of range")
      else
        var r := StrNCpy(data[start..], end - start);
        if NoNul(data[..size]) then
          StrNCpyCopies(data[start..], end - start);
          assert data[start..][..end - start] == data[..size][start..end];
          Ok(r)
        else Ok(r)
    }

    /** `sub_string(start)` and `sub_string_from(start)`: the chars from start to the end. */
    function SubStringFrom(start: nat): (r: Result<seq<char>>)
      reads this, data
      requires Valid()
      ensures r.Ok? <==> start <= |Contents()|
      ensures r.Ok? ==> r == SubString(start, |Contents()|)
    {
      if start > size then Fail("out of range") else SubString(start, size)
    }

    /** `push_back(c)`: a full buffer grows to 2 when empty, else doubles; then c is appended. */
    method PushBack(c: char)
      requires Valid()
      modifies this, data
      ensures Valid() && Contents() == old(Contents()) + [c]
      ensures capacity == if old(size) < old(capacity) then old(capacity)
                          else if old(capacity) == 0 then 2 else 2 * old(capacity)
    {
      if size == capacity {
        var newCapacity := if capacity == 0 then 2 else capacity * 2;
        AllocateResources(newCapacity);
      }
      data[size] := c;
      size := size + 1;
      data[size] := NUL;
    }

    /**
     * `push_back(other)` and `operator+=(other)`: the buffer grows to
     * exactly the combined size when needed, then other's chars are
     * strncpy'd after the contents.
     */
    method Append(other: Str)
      requires Valid() && other.Valid()
      modifies this, data
      ensures Valid()
      ensures Contents() == old(Contents()) + StrNCpy(old(other.Contents()), old(other.size))
      ensures capacity == if old(size) + old(other.size) <= old(capacity) then old(capacity) else old(size) + old(other.size)
    {
      var src := other.data[..other.size];
      var n := size;
      AllocateResources(n + |src|);
      WriteAt(data, n, StrNCpy(src, |src|));
      size := n + |src|;
      data[size] := NUL;
      assert data[..size] == old(Contents()) + StrNCpy(src, |src|);
    }

    /** `push_back(const char *)`: a null pointer is ignored; otherwise like Append. */
    method AppendCString(s: Option<seq<char>>)
      requires Valid() && (s.Some? ==> NoNul(s.value))
      modifies this, data
      ensures Valid()
      ensures s.None? ==> data == old(data) && size == old(size) && capacity == old(capacity) && data[..] == old(data[..])
      ensures s.Some? ==> Contents() == old(Contents()) + s.value
    {
      if s.None? {
        return;
      }
      var text := s.value;
      var n := size;
      if n + |text| > capacity {
        AllocateResources(n + |text|);
      }
      StrNCpyCopies(text, |text|);
      WriteAt(data, n, StrNCpy(text, |text|));
      size := n + |text|;
      data[size] := NUL;
      assert data[..size] == old(Contents()) + text;
    }

    /**
     * `resize(n, fill)`: beyond the capacity the buffer grows to n and the
     * new positions get fill; otherwise only the size moves to n, so growing
     * within the capacity exposes whatever the buffer held there.
     */
    method Resize(n: nat, fill: char)
      requires Valid()
      modifies this, data
      ensures Valid() && size == n
      ensures old(capacity) < n ==> capacity == n && Contents() == old(Contents()) + Repeat(fill, n - old(size))
      ensures n <= old(capacity) ==>
        (capacity == old(capacity) && data == old(data) &&
         Contents() == old(data[..n]) && data[n + 1..] == old(data[n + 1..]))
    {
      if n > capacity {
        AllocateResources(n);
        Fill(data, size, n, fill);
        size := n;
        data[size] := NUL;
      } else {
        size := n;
        data[size] := NUL;
      }
    }

    /**
     * `reverse()` as written: the fault on an empty string; otherwise the
     * chars are pushed last to first onto a default-constructed string,
     * which already holds " ".
     */
    method ReverseAsWritten() returns (r: Result<seq<char>>)
      requires Valid()
      ensures r.Ok? <==> |Contents()| > 0
      ensures r.Ok? ==> r.value == " " + Reversed(Contents())
    {
      if size == 0 {
        return Fail("empty string");
      }
      var acc := " ";
      var i := size;
      while i > 0
        invariant 0 <= i <= size
        invariant acc == " " + Reversed(data[i..size])
      {
        assert data[i - 1..size][1..] == data[i..size];
        acc := acc + [data[i - 1]];
        i := i - 1;
      }
      return Ok(acc);
    }

    /** `reverse()` as intended: the chars in reverse order, starting from an empty string. */
    method Reverse() returns (r: Result<seq<char>>)
      requires Valid()
      ensures r.Ok? <==> |Contents()| > 0
      ensures r.Ok? ==> r.value == Reversed(Contents())
    {
      if size == 0 {
        return Fail("empty string");
      }
      var acc := [];
      var i := size;
      while i > 0
        invariant 0 <= i <= size
        invariant acc == Reversed(data[i..size])
      {
        assert data[i - 1..size][1..] == data[i..size];
        acc := acc + [data[i - 1]];
        i := i - 1;
      }
      return Ok(acc);
    }

    /** `operator==`: equal sizes and equal chars at every position. */
    method Equal(other: Str) returns (r: bool)
      requires Valid() && other.Valid()
      ensures r <==> Contents() == other.Contents()
    {
      if size != other.size {
        return false;
      }
      var i := 0;
      while i < size
        invariant 0 <= i <= size
        invariant data[..i] == other.data[..i]
      {
        if data[i] != other.data[i] {
          assert Contents()[i] != other.Contents()[i];
          return false;
        }
        i := i + 1;
      }
      return true;
    }

    /** `operator<`: lexicographic order of the contents. */
    method Less(other: Str) returns (r: bool)
      requires Valid() && other.Valid()
      ensures r == LexLess(Contents(), other.Contents())
    {
      var a, b := Contents(), other.Contents();
      var minLen := if size < other.size then size else other.size;
      var i := 0;
      while i < minLen
        invariant 0 <= i <= minLen
        invariant LexLess(a, b) == LexLess(a[i..], b[i..])
      {
        if data[i] != other.data[i] {
          return Hashing.SignedChar(data[i]) < Hashing.SignedChar(other.data[i]);
        }
        assert a[i..][1..] == a[i + 1..] && b[i..][1..] == b[i + 1..];
        i := i + 1;
      }
      return size < other.size;
    }

    /** `operator>`: the mirror image of `<`. */
    method Greater(other: Str) returns (r: bool)
      requires Valid() && other.Valid()
      ensures r == LexLess(other.Contents(), Contents())
    {
      var a, b := Contents(), other.Contents();
      var minLen := if size < other.size then size else other.size;
      var i := 0;
      while i < minLen
        invariant 0 <= i <= minLen
        invariant LexLess(b, a) == LexLess(b[i..], a[i..])
      {
        if data[i] != other.data[i] {
          return Hashing.SignedChar(data[i]) > Hashing.SignedChar(other.data[i]);
        }
        assert a[i..][1..] == a[i + 1..] && b[i..][1..] == b[i + 1..];
        i := i + 1;
      }
      return size > other.size;
    }

    /** `operator+`: a new string holding both operands' chars; neither operand changes. */
    function Concat(other: Str): (r: seq<char>)
      reads this, data, other, other.data
      requires Valid() && other.Valid()
      ensures |r| == |Contents()| + |other.Contents()|
      ensures NoNul(Contents()) && NoNul(other.Contents()) ==> r == Contents() + other.Contents()
    {
      var x := StrNCpy(data[..size], size);
      var y := StrNCpy(other.data[..other.size], other.size);
      if NoNul(data[..size]) && NoNul(other.data[..other.size]) then
        StrNCpyCopies(data[..size], size);
        StrNCpyCopies(other.data[..other.size], other.size);
        x + y
      else x + y
    }
  }

  /** A string reversed by the as-written `reverse` gains a leading space. */
  lemma ReverseAsWrittenAddsSpace()
    ensures " " + Reversed("ab") == " ba"
    ensures " " + Reversed("ab") != Reversed("ab")
  {
    assert Reversed("ab") == "ba" by {
      assert "ab"[1..] == "b";
      assert Reversed("b") == "b" by { assert "b"[1..] == ""; }
    }
  }
}
