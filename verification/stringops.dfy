/** String buffers, and the instructions that take strings apart and put them together. */
module StringOps {
  import opened Words
  import opened Growth
  import opened Strings
  import opened Stacks
  import opened DataStacks

  /** The size of what stands before a buffer's bytes: its allocated size and its length */
  const HEADER: nat := 16

  /** What string_reserve keeps when it moves a string: it copies as many bytes as the string has, but from
      the start of the header, so that the last ones of the string are not copied. */
  function Moved(s: Key): (r: Key)
    ensures |r| == |s|
    ensures forall k :: 0 <= k < |s| ==> r[k] == if k + HEADER < |s| then s[k] else 0
  {
    seq(|s|, k requires 0 <= k < |s| => if k + HEADER < |s| then s[k] else 0)
  }

  /** A string survives growth exactly when its last sixteen bytes, or all it has, are zero. */
  lemma MovedKeeps(s: Key)
    ensures Moved(s) == s <==> forall k :: 0 <= k < |s| <= k + HEADER ==> s[k] == 0
  {
    if Moved(s) == s {
      forall k | 0 <= k < |s| <= k + HEADER
        ensures s[k] == 0
      {
        assert s[k] == Moved(s)[k];
      }
    }
  }

  /** A buffer of bytes of which some are in use */
  class Buffer {
    var bytes: array<byte>
    var length: nat

    ghost predicate Valid()
      reads this
    {
      length <= bytes.Length
    }

    ghost function Contents(): Key
      reads this, bytes
      requires Valid()
    {
      bytes[..length]
    }

    /** string_alloc without an initial value: room for the next power of two of bytes */
    constructor (size: nat)
      requires size < MOST
      ensures Valid() && fresh(bytes) && Contents() == [] && IsNextPow2(bytes.Length, size)
    {
      var room := NextUpPow2(size);
      bytes := new byte[room](_ => 0);
      length := 0;
    }

    /** string_alloc with an initial value */
    constructor Of(s: Key)
      requires |s| < MOST
      ensures Valid() && fresh(bytes) && Contents() == s && IsNextPow2(bytes.Length, |s|)
    {
      var room := NextUpPow2(|s|);
      bytes := new byte[room](k => if 0 <= k < |s| then s[k] else 0);
      length := |s|;
    }

    /** string_reserve */
    method Reserve(size: nat)
      requires Valid() && size < MOST
      modifies this`bytes
      ensures Valid() && bytes.Length >= size
      ensures size <= old(bytes.Length) ==> bytes == old(bytes)
      ensures size > old(bytes.Length) ==>
        fresh(bytes) && IsNextPow2(bytes.Length, size) && Contents() == Moved(old(Contents()))
    {
      if size > bytes.Length {
        var room := NextUpPow2(size);
        var bigger := new byte[room](_ => 0);
        forall k | 0 <= k && k + HEADER < length {
          bigger[k] := bytes[k];
        }
        bytes := bigger;
      }
    }

    /** string_append. The source tests whether the bytes to append alone are more than the buffer has: false
        where they would then be stored past its end, with nothing stored. */
    method Append(s: Key) returns (fits: bool)
      requires Valid() && length + |s| < MOST
      modifies this, bytes
      ensures Valid() && (bytes == old(bytes) || fresh(bytes)) && bytes.Length >= old(bytes.Length)
      ensures fits <==> |s| > old(bytes.Length) || old(length) + |s| <= old(bytes.Length)
      ensures Contents() == if !fits then old(Contents())
                            else (if |s| > old(bytes.Length) then Moved(old(Contents())) else old(Contents())) + s
    {
      if |s| > bytes.Length {
        Reserve(length + |s|);
      }
      if length + |s| > bytes.Length {
        return false;
      }
      forall k | 0 <= k < |s| {
        bytes[length + k] := s[k];
      }
      length := length + |s|;
      fits := true;
    }

    /** string_appendc */
    method AppendByte(c: byte)
      requires Valid() && length + 1 < MOST
      modifies this, bytes
      ensures Valid() && (bytes == old(bytes) || fresh(bytes))
      ensures Contents() == (if old(length == bytes.Length) then Moved(old(Contents())) else old(Contents())) + [c]
    {
      Reserve(length + 1);
      bytes[length] := c;
      length := length + 1;
    }

    /** string_assign: what is left over is cleared, and growth does no harm, as nothing is to be kept. */
    method Assign(s: Key)
      requires Valid() && |s| < MOST
      modifies this, bytes
      ensures Valid() && Contents() == s && forall k :: |s| <= k < bytes.Length ==> bytes[k] == 0
      ensures if |s| <= old(bytes.Length) then bytes == old(bytes) else fresh(bytes)
    {
      if |s| > bytes.Length {
        Reserve(|s|);
      }
      forall k | 0 <= k < |s| {
        bytes[k] := s[k];
      }
      forall k | |s| <= k < bytes.Length {
        bytes[k] := 0;
      }
      length := |s|;
    }
  }

  /** The strings one after the other */
  function Concat(strings: seq<Key>): Key
  {
    if strings == [] then [] else Concat(strings[..|strings| - 1]) + strings[|strings| - 1]
  }

  /** Putting strings together: two lists of them one after the other, and one string by itself. */
  lemma {:induction false} ConcatJoins(strings: seq<Key>, more: seq<Key>)
    ensures Concat(strings + more) == Concat(strings) + Concat(more)
    ensures forall s :: Concat([s]) == s
  {
    if more == [] {
      assert strings + more == strings;
    } else {
      var n := |more| - 1;
      ConcatJoins(strings, more[..n]);
      assert (strings + more)[..|strings + more| - 1] == strings + more[..n];
    }
  }

  function Singles(s: Key): (r: seq<Key>)
    ensures |r| == |s| && forall i :: 0 <= i < |s| ==> r[i] == [s[i]]
  {
    seq(|s|, i requires 0 <= i < |s| => [s[i]])
  }

  lemma {:induction false} ConcatSingles(s: Key)
    ensures Concat(Singles(s)) == s
  {
    if s != [] {
      var n := |s| - 1;
      assert Singles(s)[..n] == Singles(s[..n]);
      ConcatSingles(s[..n]);
      assert s == s[..n] + [s[n]];
    }
  }

  /** The strings below a count, the topmost first */
  function Texts<V>(stack: seq<V>, n: nat, textOf: V -> Key): (r: seq<Key>)
    requires n <= |stack|
    ensures |r| == n && forall i :: 0 <= i < n ==> r[i] == textOf(stack[|stack| - 1 - i])
  {
    seq(n, i requires 0 <= i < n => textOf(stack[|stack| - 1 - i]))
  }

  /** A scalar for each character */
  function Characters<V>(s: Key, scalars: Scalars<V>): (r: seq<V>)
    ensures |r| == |s| && forall i :: 0 <= i < |s| ==> r[i] == scalars.text([s[i]])
  {
    seq(|s|, i requires 0 <= i < |s| => scalars.text([s[i]]))
  }

  /** What XPLOD pushes for a string: its first character ends on top, below the count. */
  function Exploded<V>(s: Key, scalars: Scalars<V>): (r: seq<V>)
    ensures |r| == |s| + 1 && r[|s|] == scalars.number(|s|)
    ensures forall i :: 0 <= i < |s| ==> r[i] == scalars.text([s[|s| - 1 - i]])
  {
    Backwards(Characters(s, scalars)) + [scalars.number(|s|)]
  }

  /** XPLOD's loop: every character goes through a buffer that holds one. */
  method Separate<V(0)>(str: Key, scalars: Scalars<V>) returns (characters: array<V>)
    ensures fresh(characters) && characters[..] == Characters(str, scalars)
  {
    var n := |str|;
    characters := new V[n](_ => scalars.undef);
    var buf := new Buffer(1);
    var i := 0;
    while i < n
      invariant i <= n && buf.Valid() && fresh(buf) && fresh(buf.bytes) && fresh(characters)
      invariant buf.bytes.Length > 1 && (buf.bytes as object) != characters
      invariant forall k :: 0 <= k < i ==> characters[k] == scalars.text([str[k]])
    {
      buf.Assign([str[i]]);
      characters[i] := scalars.text(buf.bytes[..buf.length]);
      i := i + 1;
    }
  }

  /** XPLOD */
  method Xplod<V(0)>(ds: Stack<V>, scalars: Scalars<V>)
    requires ds.Valid() && ds.count > 0
    requires ds.count + |scalars.textOf(ds.items[ds.count - 1])| < MOST
    modifies ds, ds.items
    ensures ds.Valid() && (ds.items == old(ds.items) || fresh(ds.items))
    ensures var str := old(scalars.textOf(ds.items[ds.count - 1]));
      ds.Contents() == old(ds.Contents()[..ds.count - 1]) + Exploded(str, scalars)
  {
    hide Characters;
    var s := PopOne(ds, scalars.undef);
    var str := scalars.textOf(s);
    ghost var below := ds.Contents();
    if |str| > 0 {
      var characters := Separate(str, scalars);
      assert characters[..|str|] == Characters(str, scalars);
      ds.Push(characters, |str|);
    }
    PushOne(ds, scalars.number(|str|));
    assert ds.Contents() == below + Exploded(str, scalars);
  }

  /** CAT's first loop: pops the strings, the first from the top, and adds up their lengths. */
  method Gather<V(0)>(ds: Stack<V>, n: nat, scalars: Scalars<V>) returns (strings: seq<Key>, total: nat)
    requires ds.Valid() && n <= ds.count
    modifies ds
    ensures ds.Valid() && ds.items == old(ds.items) && ds.Contents() == old(ds.Contents())[..old(ds.count) - n]
    ensures strings == Texts(old(ds.Contents()), n, scalars.textOf) && total == |Concat(strings)|
  {
    ghost var was := ds.Contents();
    strings, total := [], 0;
    var i := 0;
    while i < n
      invariant i <= n && |strings| == i && ds.Valid() && ds.items == old(ds.items)
      invariant ds.Contents() == was[..|was| - i]
      invariant forall k :: 0 <= k < i ==> strings[k] == scalars.textOf(was[|was| - 1 - k])
      invariant total == |Concat(strings)|
    {
      var v := PopOne(ds, scalars.undef);
      assert v == was[|was| - 1 - i];
      var s := scalars.textOf(v);
      assert (strings + [s])[..i] == strings;
      strings, total, i := strings + [s], total + |s|, i + 1;
    }
  }

  /** CAT's second loop: every string fits behind the ones before it, so the buffer never grows. */
  method Glue(strings: seq<Key>, total: nat) returns (result: Buffer)
    requires total == |Concat(strings)| < MOST
    ensures fresh(result) && result.Valid() && result.Contents() == Concat(strings)
  {
    result := new Buffer(total);
    var i := 0;
    assert strings[..|strings|] == strings;
    while i < |strings|
      invariant i <= |strings| && fresh(result) && fresh(result.bytes) && result.Valid()
      invariant result.bytes.Length > total && result.Contents() == Concat(strings[..i])
    {
      ConcatGrows(strings, i + 1);
      assert strings[..i + 1][..i] == strings[..i];
      var fits := result.Append(strings[i]);
      i := i + 1;
    }
  }

  lemma {:induction false} ConcatGrows(strings: seq<Key>, n: nat)
    requires n <= |strings|
    ensures |Concat(strings[..n])| <= |Concat(strings)|
    decreases |strings| - n
  {
    if n < |strings| {
      ConcatGrows(strings, n + 1);
      assert strings[..n + 1][..n] == strings[..n];
    } else {
      assert strings[..n] == strings;
    }
  }

  /** What CAT pushes: nothing defined unless there is something to put together */
  function Catenated<V>(stack: seq<V>, scalars: Scalars<V>): V
    requires stack != [] && scalars.intOf(stack[|stack| - 1]) < |stack|
  {
    var n := scalars.intOf(stack[|stack| - 1]);
    if n <= 0 then scalars.undef else scalars.text(Concat(Texts(stack[..|stack| - 1], n, scalars.textOf)))
  }

  /** CAT */
  method Cat<V(0)>(ds: Stack<V>, scalars: Scalars<V>)
    requires ds.Valid() && ds.count > 0 && scalars.intOf(ds.items[ds.count - 1]) < ds.count
    requires var n := scalars.intOf(ds.items[ds.count - 1]);
      ds.count < MOST && (n > 0 ==> |Concat(Texts(ds.Contents()[..ds.count - 1], n, scalars.textOf))| < MOST)
    modifies ds, ds.items
    ensures ds.Valid() && (ds.items == old(ds.items) || fresh(ds.items))
    ensures var n := old(scalars.intOf(ds.items[ds.count - 1]));
      var below := old(ds.count) - 1 - if n > 0 then n else 0;
      ds.Contents() == old(ds.Contents())[..below] + [Catenated(old(ds.Contents()), scalars)]
    ensures ds.Contents() != []
    ensures var was, n := old(ds.Contents()), old(scalars.intOf(ds.items[ds.count - 1]));
      n > 0 ==> exists strings: seq<Key> ::
        && |strings| == n && ds.Contents()[|ds.Contents()| - 1] == scalars.text(Concat(strings))
        && forall i :: 0 <= i < n ==> strings[i] == scalars.textOf(was[|was| - 2 - i])
    ensures var n := old(scalars.intOf(ds.items[ds.count - 1]));
      n <= 0 ==> ds.Contents()[|ds.Contents()| - 1] == scalars.undef
  {
    hide Texts, Concat;
    ghost var was := ds.Contents();
    var count := PopOne(ds, scalars.undef);
    var n := scalars.intOf(count);
    var s := scalars.undef;
    assert ds.Contents() == was[..|was| - 1];
    if n > 0 {
      var strings, total := Gather(ds, n, scalars);
      var result := Glue(strings, total);
      s := scalars.text(result.bytes[..result.length]);
    }
    PushOne(ds, s);
  }

  /** XPLOD and then CAT give back a string, unless it is empty: then what is left is undefined. */
  method XplodThenCat<V(0)>(ds: Stack<V>, scalars: Scalars<V>)
    requires ds.Valid() && ds.count > 0 && scalars.Sound()
    requires ds.count + |scalars.textOf(ds.items[ds.count - 1])| + 1 < MOST
    modifies ds, ds.items
    ensures ds.Valid()
    ensures ds.Contents() == old(ds.Contents()[..ds.count - 1] + [
      var str := scalars.textOf(ds.items[ds.count - 1]); if str == [] then scalars.undef else scalars.text(str)])
  {
    hide Texts, Concat, Catenated, Exploded;
    ghost var below, str := ds.Contents()[..ds.count - 1], scalars.textOf(ds.items[ds.count - 1]);
    Xplod(ds, scalars);
    CatUndoes(below, str, scalars);
    assert ds.items[ds.count - 1] == ds.Contents()[ds.count - 1];
    Cat(ds, scalars);
  }

  /** What CAT makes of what XPLOD has pushed */
  lemma CatUndoes<V>(below: seq<V>, str: Key, scalars: Scalars<V>)
    requires scalars.Sound()
    ensures var stack := below + Exploded(str, scalars);
      && |stack| == |below| + |str| + 1 && scalars.intOf(stack[|stack| - 1]) == |str|
      && Concat(Texts(stack[..|stack| - 1], |str|, scalars.textOf)) == str
      && Catenated(stack, scalars) == (if str == [] then scalars.undef else scalars.text(str))
      && stack[..|below|] == below
  {
    var stack := below + Exploded(str, scalars);
    assert Texts(stack[..|stack| - 1], |str|, scalars.textOf) == Singles(str);
    ConcatSingles(str);
  }
}
