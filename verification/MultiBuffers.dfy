/** Lists of buffers: splitting, merging and compacting never changes the bytes they hold. */
module MultiBuffers {
  import opened Bytes

  /** A buffer's window on its backing array: `data` sits at `start`, and `cap` is the array's length. */
  datatype Buf = Buf(start: nat, data: bytes, cap: nat) {
    predicate Valid() {
      start + |data| <= cap
    }

    function Available(): int {
      cap - start - |data|
    }
  }

  type MultiBuffer = seq<Buf>

  function Flat(mb: MultiBuffer): bytes {
    if mb == [] then [] else mb[0].data + Flat(mb[1..])
  }

  ghost predicate Valid(mb: MultiBuffer) {
    forall i :: 0 <= i < |mb| ==> mb[i].Valid()
  }

  /** Every buffer holds at most what a pooled one holds. */
  ghost predicate Small(mb: MultiBuffer) {
    forall i :: 0 <= i < |mb| ==> |mb[i].data| <= SIZE
  }

  lemma {:induction false} FlatAppend(a: MultiBuffer, b: MultiBuffer)
    ensures Flat(a + b) == Flat(a) + Flat(b)
    decreases |a|
  {
    if a == [] {
      assert a + b == b;
    } else {
      FlatAppend(a[1..], b);
      assert (a + b)[1..] == a[1..] + b;
      Assoc(a[0].data, Flat(a[1..]), Flat(b));
    }
  }

  lemma FlatSnoc(a: MultiBuffer, b: Buf)
    ensures Flat(a + [b]) == Flat(a) + b.data
  {
    FlatAppend(a, [b]);
    assert [b][1..] == [];
    NilRight(b.data);
  }

  lemma FlatAt(mb: MultiBuffer, i: nat)
    requires i < |mb|
    ensures Flat(mb[i..]) == mb[i].data + Flat(mb[i + 1..])
  {
    assert mb[i..][1..] == mb[i + 1..];
  }

  lemma FlatNone(mb: MultiBuffer)
    ensures Flat(mb[|mb|..]) == []
  {
  }

  function Least(a: nat, b: nat): nat {
    if a < b then a else b
  }

  // ---- Reading out ----

  method Len(mb: MultiBuffer) returns (n: nat)
    ensures n == |Flat(mb)|
  {
    n := 0;
    for i := 0 to |mb|
      invariant n + |Flat(mb[i..])| == |Flat(mb)|
    {
      FlatAt(mb, i);
      n := n + |mb[i].data|;
    }
    FlatNone(mb);
  }

  method IsEmpty(mb: MultiBuffer) returns (e: bool)
    ensures e <==> Flat(mb) == []
  {
    for i := 0 to |mb|
      invariant Flat(mb) == Flat(mb[i..])
    {
      FlatAt(mb, i);
      if mb[i].data != [] {
        return false;
      }
    }
    FlatNone(mb);
    return true;
  }

  /** One whole buffer further. */
  lemma CopyWhole(all: bytes, done: bytes, data: bytes, rest: bytes, n: nat)
    requires all == done + (data + rest) && |done| + |data| <= n
    ensures all == (done + data) + rest
  {
    Assoc(done, data, rest);
  }

  lemma CopyEnds(all: bytes, done: bytes, data: bytes, rest: bytes, m: nat)
    requires all == done + (data + rest) && m <= |data|
    ensures |done| + m <= |all| && done + data[..m] == all[..|done| + m] && data[m..] + rest == all[|done| + m..]
  {
    Assoc(done, data, rest);
    assert (data + rest)[..m] == data[..m] && (data + rest)[m..] == data[m..] + rest;
    assert all[|done|..] == data + rest && all[..|done|] == done;
    assert all[..|done| + m] == all[..|done|] + all[|done|..][..m];
    assert all[|done| + m..] == all[|done|..][m..];
  }

  /** The front of the content, as much as fits in `n` bytes; the list itself stays. */
  method Copy(mb: MultiBuffer, n: nat) returns (b: bytes)
    ensures b == Flat(mb)[..Least(n, |Flat(mb)|)]
  {
    b := [];
    for i := 0 to |mb|
      invariant Flat(mb) == b + Flat(mb[i..]) && |b| <= n
    {
      FlatAt(mb, i);
      var m := Least(n - |b|, |mb[i].data|);
      if m < |mb[i].data| {
        CopyEnds(Flat(mb), b, mb[i].data, Flat(mb[i + 1..]), m);
        return b + mb[i].data[..m];
      }
      assert mb[i].data[..m] == mb[i].data;
      CopyWhole(Flat(mb), b, mb[i].data, Flat(mb[i + 1..]), n);
      b := b + mb[i].data[..m];
    }
    FlatNone(mb);
    NilRight(b);
    assert Flat(mb)[..|b|] == b;
  }

  /** Takes up to `n` bytes off the front. What is taken and what is left are the content, cut at that place. */
  method SplitBytes(mb: MultiBuffer, n: nat) returns (rest: MultiBuffer, b: bytes)
    requires Valid(mb)
    ensures Valid(rest) && (Small(mb) ==> Small(rest))
    ensures b == Flat(mb)[..Least(n, |Flat(mb)|)] && Flat(rest) == Flat(mb)[Least(n, |Flat(mb)|)..]
  {
    b := [];
    for i := 0 to |mb|
      invariant Flat(mb) == b + Flat(mb[i..]) && |b| <= n
    {
      FlatAt(mb, i);
      hide Flat;
      var buf := mb[i];
      if n - |b| < |buf.data| {
        var m := n - |b|;
        CopyEnds(Flat(mb), b, buf.data, Flat(mb[i + 1..]), m);
        b := b + buf.data[..m];
        rest := [Buf(buf.start + m, buf.data[m..], buf.cap)] + mb[i + 1..];
        FlatCons(rest[0], mb[i + 1..]);
        return;
      }
      CopyWhole(Flat(mb), b, buf.data, Flat(mb[i + 1..]), n);
      b := b + buf.data;
    }
    FlatNone(mb);
    NilRight(b);
    rest := [];
    AllTaken(b);
  }

  lemma AllTaken(b: bytes)
    ensures b[..|b|] == b && b[|b|..] == []
  {
  }

  lemma FlatCons(b: Buf, mb: MultiBuffer)
    ensures Flat([b] + mb) == b.data + Flat(mb)
  {
    assert ([b] + mb)[1..] == mb;
  }

  method SplitFirst(mb: MultiBuffer) returns (rest: MultiBuffer, first: seq<Buf>)
    ensures first + rest == mb && |first| == Least(1, |mb|)
    ensures Flat(first) + Flat(rest) == Flat(mb)
  {
    if |mb| == 0 {
      return mb, [];
    }
    rest, first := mb[1..], [mb[0]];
    assert first + rest == mb;
    FlatAppend(first, rest);
  }

  /**
   * At most `size` bytes off the front, in whole buffers unless the first one is already too large. The two parts are the
   * content cut in two, and the cut is as late as whole buffers allow.
   */
  method SplitSize(mb: MultiBuffer, size: nat) returns (rest: MultiBuffer, front: MultiBuffer)
    requires Valid(mb) && (mb != [] && |mb[0].data| > size ==> size <= SIZE)
    ensures Valid(rest) && Valid(front) && |rest| <= |mb| && (Small(mb) ==> Small(rest))
    ensures Flat(front) + Flat(rest) == Flat(mb) && |Flat(front)| <= size
    ensures rest == [] || |Flat(front)| == size || |Flat(front)| + |rest[0].data| > size
    ensures Flat(mb) != [] && size > 0 ==> |front| > 0 && (Flat(front) != [] || |rest| < |mb|)
  {
    if |mb| == 0 {
      return mb, [];
    }
    if |mb[0].data| > size {
      front, rest := SplitLarge(mb, size);
      return;
    }
    var total := 0;
    front := [];
    for i := 0 to |mb|
      invariant front == mb[..i] && Valid(front) && |Flat(front)| == total <= size
      invariant Flat(mb) == Flat(front) + Flat(mb[i..])
    {
      FlatAt(mb, i);
      if total + |mb[i].data| > size {
        rest := mb[i..];
        return;
      }
      total := total + |mb[i].data|;
      FlatSnoc(front, mb[i]);
      Assoc(Flat(front), mb[i].data, Flat(mb[i + 1..]));
      front := front + [mb[i]];
    }
    FlatNone(mb);
    rest := [];
    assert mb[|mb|..] == [];
  }

  /** A first buffer that is too large is cut, its front copied out. */
  method SplitLarge(mb: MultiBuffer, size: nat) returns (front: MultiBuffer, rest: MultiBuffer)
    requires Valid(mb) && mb != [] && |mb[0].data| > size && size <= SIZE
    ensures Valid(rest) && Valid(front) && |front| == 1 && |rest| == |mb| && (Small(mb) ==> Small(rest))
    ensures Flat(front) == mb[0].data[..size] && Flat(front) + Flat(rest) == Flat(mb)
  {
    var b := mb[0];
    front := [Buf(0, b.data[..size], SIZE)];
    rest := [Buf(b.start + size, b.data[size..], b.cap)] + mb[1..];
    assert rest[1..] == mb[1..] && front[1..] == [];
    NilRight(b.data[..size]);
    Assoc(b.data[..size], b.data[size..], Flat(mb[1..]));
    assert b.data[..size] + b.data[size..] == b.data;
  }

  // ---- Putting together ----

  method MergeMulti(dest: MultiBuffer, src: MultiBuffer) returns (r: MultiBuffer, emptied: MultiBuffer)
    ensures Flat(r) == Flat(dest) + Flat(src) && emptied == []
    ensures Valid(dest) && Valid(src) ==> Valid(r)
  {
    FlatAppend(dest, src);
    return dest + src, [];
  }

  /** Appends bytes: first into the room behind the last buffer, then into new buffers. */
  method MergeBytes(dest: MultiBuffer, src: bytes) returns (r: MultiBuffer)
    requires Valid(dest)
    ensures Valid(r) && Flat(r) == Flat(dest) + src
    ensures |dest| <= |r| && forall i :: |dest| <= i < |r| - 1 ==> |r[i].data| == SIZE
  {
    r := dest;
    var left := src;
    var n := |dest|;
    if n > 0 && dest[n - 1].Available() > 0 {
      var last := dest[n - 1];
      var m := Least(last.Available(), |src|);
      r := dest[..n - 1] + [Buf(last.start, last.data + src[..m], last.cap)];
      left := src[m..];
      MergedLast(dest[..n - 1], last, src[..m], src[m..]);
      assert dest[..n - 1] + [last] == dest && src[..m] + src[m..] == src;
    } else {
      assert [] + src == src;
      NilRight(Flat(dest));
    }
    while left != []
      invariant Valid(r) && Flat(r) + left == Flat(dest) + src
      invariant |dest| <= |r| && forall i :: |dest| <= i < |r| - 1 ==> |r[i].data| == SIZE
      invariant left != [] && |r| > |dest| ==> |r[|r| - 1].data| == SIZE
      decreases |left|
    {
      var m := Least(SIZE, |left|);
      var b := Buf(0, left[..m], SIZE);
      FlatSnoc(r, b);
      Assoc(Flat(r), left[..m], left[m..]);
      assert left[..m] + left[m..] == left;
      r := r + [b];
      left := left[m..];
    }
    NilRight(Flat(r));
  }

  lemma MergedLast(front: MultiBuffer, last: Buf, a: bytes, b: bytes)
    ensures Flat(front + [Buf(last.start, last.data + a, last.cap)]) + b == Flat(front + [last]) + (a + b)
  {
    hide Flat;
    FlatSnoc(front, last);
    FlatSnoc(front, Buf(last.start, last.data + a, last.cap));
    Assoc(Flat(front), last.data, a);
    Assoc(Flat(front) + last.data, a, b);
  }

  /** No buffer would fit into the room behind the one before. */
  ghost predicate Tight(mb: MultiBuffer) {
    |mb| < 2 || (|mb[|mb| - 1].data| > mb[|mb| - 2].Available() && Tight(mb[..|mb| - 1]))
  }

  lemma {:induction false} TightAt(mb: MultiBuffer, i: nat)
    requires Tight(mb) && i + 1 < |mb|
    ensures |mb[i + 1].data| > mb[i].Available()
    decreases |mb|
  {
    if i + 2 < |mb| {
      TightAt(mb[..|mb| - 1], i);
    }
  }

  /** One buffer more, at the end. */
  lemma Appended(r: MultiBuffer, last: Buf)
    requires Valid(r) && last.Valid()
    ensures Valid(r + [last]) && Flat(r + [last]) == Flat(r) + last.data
    ensures Tight(r) && (r != [] ==> |last.data| > r[|r| - 1].Available()) ==> Tight(r + [last])
  {
    FlatSnoc(r, last);
    assert (r + [last])[..|r|] == r;
  }

  /** Moves each buffer into the room behind the one before where it fits; afterwards no two neighbours fit together. */
  method Compact(mb: MultiBuffer) returns (r: MultiBuffer)
    requires Valid(mb)
    ensures Valid(r) && Flat(r) == Flat(mb) && |r| <= |mb|
    ensures forall i :: 0 <= i < |r| - 1 ==> |r[i + 1].data| > r[i].Available()
  {
    if |mb| == 0 {
      return mb;
    }
    r := [];
    var last := mb[0];
    FlatAt(mb, 0);
    assert mb[0..] == mb && [] + last.data == last.data;
    assert Flat(mb) == Flat(r) + last.data + Flat(mb[1..]);
    for i := 1 to |mb|
      invariant Valid(r) && last.Valid() && |r| < i && Tight(r)
      invariant Flat(mb) == Flat(r) + last.data + Flat(mb[i..])
      invariant r != [] ==> |last.data| > r[|r| - 1].Available()
    {
      var curr := mb[i];
      FlatAt(mb, i);
      assert curr.Valid();
      hide Flat, Tight, Valid;
      Assoc(Flat(r) + last.data, curr.data, Flat(mb[i + 1..]));
      if |curr.data| > last.Available() {
        Appended(r, last);
        r := r + [last];
        last := curr;
      } else {
        Assoc(Flat(r), last.data, curr.data);
        last := Buf(last.start, last.data + curr.data, last.cap);
      }
    }
    FlatNone(mb);
    Appended(r, last);
    NilRight(Flat(r) + last.data);
    r := r + [last];
    hide Flat, Tight, Valid;
    forall i | 0 <= i < |r| - 1 ensures |r[i + 1].data| > r[i].Available() {
      TightAt(r, i);
    }
  }
}
