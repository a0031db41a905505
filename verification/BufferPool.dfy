/** One buffer: a window on a backing array; and the pool those arrays come from and go back to. */
module BufferPool {
  import opened Bytes

  class Buffer {
    /** Null once released. */
    var v: array?<byte>
    var start: int
    var end: int
    const managed: bool

    ghost predicate Valid()
      reads this, v
    {
      v != null ==> 0 <= start <= end <= v.Length
    }

    ghost function Content(): bytes
      requires Valid() && v != null
      reads this, v
    {
      v[start..end]
    }

    constructor (v: array<byte>, end: int, managed: bool)
      requires 0 <= end <= v.Length
      ensures Valid() && this.v == v && start == 0 && this.end == end && this.managed == managed
    {
      this.v, start, this.end, this.managed := v, 0, end, managed;
    }

    method Len() returns (n: int)
      requires Valid() && v != null
      ensures n == |Content()|
    {
      n := end - start;
    }

    method Clear()
      requires Valid()
      modifies this`start, this`end
      ensures Valid() && start == 0 && end == 0
    {
      start, end := 0, 0;
    }

    /** Grows the window by n bytes, which read as zero whatever the array held there. */
    method Extend(n: nat)
      requires Valid() && v != null && end + n <= v.Length
      modifies this`end, v
      ensures Valid() && Content() == old(Content()) + Zeros(n)
      ensures v[..end - n] == old(v[..end]) && v[end..] == old(v[end + n..])
    {
      ghost var before := v[..];
      forall k | end <= k < end + n {
        v[k] := 0;
      }
      assert v[..end] == before[..end];
      assert v[start..end] == before[start..end] by { SameTail(v[..end], before[..end], start); }
      assert v[end..end + n] == Zeros(n);
      assert v[start..end + n] == v[start..end] + v[end..end + n];
      end := end + n;
    }

    /** Appends as much as there is room for, and says how much that was. */
    method Write(data: bytes) returns (n: nat, full: bool)
      requires Valid() && v != null
      modifies this`end, v
      ensures Valid() && n <= |data| && (full <==> n < |data|) && (full ==> end == v.Length)
      ensures Content() == old(Content()) + data[..n]
    {
      ghost var before := v[..];
      n := if |data| <= v.Length - end then |data| else v.Length - end;
      full := n < |data|;
      forall k | 0 <= k < n {
        v[end + k] := data[k];
      }
      assert v[..end] == before[..end];
      assert v[start..end] == before[start..end] by { SameTail(v[..end], before[..end], start); }
      assert v[end..end + n] == data[..n];
      assert v[start..end + n] == v[start..end] + v[end..end + n];
      end := end + n;
    }

    /** Takes up to n bytes off the front; an emptied buffer starts over. */
    method Read(n: nat) returns (data: bytes, eof: bool)
      requires Valid() && v != null
      modifies this`start, this`end
      ensures Valid() && (eof <==> old(Content()) == [])
      ensures data + Content() == old(Content()) && |data| == if n < |old(Content())| then n else |old(Content())|
      ensures Content() == [] ==> old(Content()) == [] || (start == 0 && end == 0)
    {
      data, eof := [], start == end;
      if eof {
        assert [] + v[start..end] == v[start..end];
        return;
      }
      var m := if n < end - start then n else end - start;
      data := v[start..start + m];
      assert v[start..end] == data + v[start + m..end];
      if m == end - start {
        Clear();
        NilRight(data);
      } else {
        start := start + m;
      }
    }

    /** The source's index convention: a negative index counts from the end. */
    function Index(i: int): int
      reads this
    {
      if i < 0 then i + end - start else i
    }

    /** Where Check() puts an index that left the array at the front. */
    function Clamped(i: int): nat {
      if i < 0 then 0 else i
    }

    /** Drops the front of the window, all of it if there is less; below minus the length the window grows back to the front. */
    method Advance(from: int)
      requires Valid() && v != null
      modifies this`start
      ensures Valid()
      ensures old(Index(from)) >= 0 ==> Content() == old(Content()[if Index(from) < |Content()| then Index(from) else |Content()|..])
      ensures old(Index(from)) < 0 ==> Content() == old(v[Clamped(start + Index(from))..start] + Content())
    {
      ghost var back := Clamped(start + Index(from));
      assert back <= start ==> v[back..end] == v[back..start] + v[start..end];
      start := start + Index(from);
      if start < 0 {
        start := 0;
      }
      if start > end {
        start := end;
      }
    }

    /** Cuts or grows the window, backwards too; what it gains behind its old end reads as zero. */
    method Resize(from: int, to: int)
      requires Valid() && v != null && Index(from) <= Index(to) && start + Index(to) <= v.Length
      modifies this`start, this`end, v
      ensures Valid()
      ensures var a, z := old(Clamped(start + Index(from))), old(Clamped(start + Index(to)));
              Content() == (old(v[..end]) + Zeros(if z > old(end) then z - old(end) else 0))[a..z]
      ensures var f, t, c := old(Index(from)), old(Index(to)), old(Content());
              f >= 0 ==> Content() == (c + Zeros(if t > |c| then t - |c| else 0))[f..t]
    {
      var f, t, oldEnd := Index(from), Index(to), end;
      ghost var before, first := v[..], start;
      end := start + t;
      start := start + f;
      if start < 0 {
        start := 0;
      }
      if end < 0 {
        end := 0;
      }
      if end > oldEnd {
        forall k | oldEnd <= k < end {
          v[k] := 0;
        }
      }
      Resized(before, v[..], oldEnd, start, end);
      if f >= 0 {
        Windowed(before[..oldEnd], first, f, t);
      }
    }
  }

  /** The front of the array up to the old end, zeros behind it, and the new window on that. */
  lemma Resized(before: bytes, after: bytes, oldEnd: nat, a: nat, z: nat)
    requires oldEnd <= |before| && a <= z <= |before| && |after| == |before|
    requires forall k :: 0 <= k < |before| ==> after[k] == if oldEnd <= k < z then 0 else before[k]
    ensures after[a..z] == (before[..oldEnd] + Zeros(if z > oldEnd then z - oldEnd else 0))[a..z]
  {
    var grown := before[..oldEnd] + Zeros(if z > oldEnd then z - oldEnd else 0);
    forall i | 0 <= i < z - a ensures after[a..z][i] == grown[a..z][i] {
      assert after[a..z][i] == after[a + i] && grown[a..z][i] == grown[a + i];
    }
  }

  /** The same in terms of the content alone. */
  lemma Windowed(front: bytes, start: nat, f: nat, t: nat)
    requires start <= |front| && f <= t
    ensures var c, z := front[start..], start + t;
            (front + Zeros(if z > |front| then z - |front| else 0))[start + f..z] == (c + Zeros(if t > |c| then t - |c| else 0))[f..t]
  {
    var c, zeros := front[start..], Zeros(if start + t > |front| then start + t - |front| else 0);
    assert front == front[..start] + c;
    assert front + zeros == front[..start] + (c + zeros);
    assert (front[..start] + (c + zeros))[start..] == c + zeros;
  }

  lemma SameTail(a: bytes, b: bytes, i: nat)
    requires a == b && i <= |a|
    ensures a[i..] == b[i..]
  {
  }

  /** The pool of 8K arrays, and the buffers made from it or around foreign arrays. */
  class Pool {
    var free: seq<array<byte>>
    ghost var buffers: set<Buffer>

    /** No array is in the pool twice, held by a buffer and in the pool, or held by two managed buffers. */
    ghost predicate Valid()
      reads this, buffers
    {
      && (forall i, j :: 0 <= i < j < |free| ==> free[i] != free[j])
      && (forall i :: 0 <= i < |free| ==> free[i].Length == SIZE)
      && (forall b :: b in buffers ==> b.managed)
      && (forall b, i :: b in buffers && 0 <= i < |free| ==> b.v != free[i])
      && (forall b, c :: b in buffers && c in buffers && b != c && b.v != null ==> b.v != c.v)
    }

    constructor ()
      ensures Valid() && free == [] && buffers == {}
    {
      free, buffers := [], {};
    }

    /** A buffer of its own: its array is no other live buffer's. */
    method New() returns (b: Buffer)
      requires Valid()
      modifies this
      ensures Valid() && fresh(b) && buffers == old(buffers) + {b} && b.Valid() && b.start == 0 && b.end == 0
      ensures b.v != null && b.v.Length == SIZE && forall c :: c in old(buffers) ==> c.v != b.v
    {
      var a: array<byte>;
      if |free| > 0 {
        a := free[0];
        free := free[1..];
      } else {
        a := new byte[SIZE];
      }
      b := new Buffer(a, 0, true);
      buffers := buffers + {b};
    }

    /** Gives the array back once; releasing again, or releasing a foreign array, does nothing. */
    method Release(b: Buffer)
      requires Valid() && (b.managed ==> b in buffers)
      modifies this, b
      ensures Valid() && buffers == old(buffers)
      ensures b.managed ==> b.v == null
      ensures !b.managed ==> b.v == old(b.v) && free == old(free)
      ensures old(b.v) == null ==> free == old(free)
      ensures forall c :: c in buffers && c != b ==> c.v == old(c.v)
    {
      if b.v == null || !b.managed {
        return;
      }
      var p := b.v;
      b.v := null;
      b.start, b.end := 0, 0;
      if p.Length == SIZE {
        free := free + [p];
      }
    }
  }
}
