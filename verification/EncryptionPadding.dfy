/** Handshake padding: what a configured padding string admits, what a draw totals, and the fragmented sending of a hello. */
module EncryptionPadding {
  import opened Bytes

  /** One "probability-from-to" triple of a padding string, parsed into Go's 64-bit int. */
  datatype Triple = Triple(chance: nat, from: nat, to: nat) {
    predicate Int64() {
      chance < TWO63 && from < TWO63 && to < TWO63
    }

    function Max(): nat {
      if from < to then to else from
    }

    /** The largest length a draw of this triple can give: RandBetween leaves out its upper end. */
    function MaxDraw(): nat {
      if from == to then from else Max() - 1
    }
  }

  const TWO63: nat := 0x8000_0000_0000_0000
  const TWO64: nat := 0x1_0000_0000_0000_0000

  /** Two's complement addition of 64-bit integers. */
  function Wrap64(x: int): int {
    var m := x % TWO64;
    if m < TWO63 then m else m - TWO64
  }

  /** maxLen as ParsePadding adds it up. */
  function WrappedMax(lens: seq<Triple>): int {
    if lens == [] then 0 else Wrap64(WrappedMax(lens[..|lens| - 1]) + lens[|lens| - 1].Max())
  }

  /** The same sum without overflow. */
  function SumMax(lens: seq<Triple>): nat {
    if lens == [] then 0 else SumMax(lens[..|lens| - 1]) + lens[|lens| - 1].Max()
  }

  function SumMaxDraw(lens: seq<Triple>): nat {
    if lens == [] then 0 else SumMaxDraw(lens[..|lens| - 1]) + lens[|lens| - 1].MaxDraw()
  }

  /** ParsePadding accepts the lengths (every other triple; the gaps in between do not matter here). */
  predicate Accepted(lens: seq<Triple>) {
    && (forall i :: 0 <= i < |lens| ==> lens[i].Int64())
    && (lens != [] ==> lens[0].chance >= 100 && lens[0].from >= 35 && lens[0].to >= 35)
    && WrappedMax(lens) <= 65553
  }

  /** The lengths CreatPadding works with. */
  function Effective(lens: seq<Triple>): seq<Triple> {
    if lens == [] then [Triple(100, 111, 1111), Triple(50, 0, 3333)] else lens
  }

  predicate Between(y: Triple, l: nat) {
    if y.from == y.to then l == y.from
    else if y.from < y.to then y.from <= l < y.to
    else y.to <= l < y.from
  }

  /** One length of a draw: skipped when the dice, 0 to 99, beat the chance. */
  predicate Drawable(y: Triple, l: nat) {
    (l == 0 && y.chance < 99) || Between(y, l)
  }

  predicate DrawOf(lens: seq<Triple>, draw: seq<nat>) {
    |draw| == |lens| && forall i :: 0 <= i < |lens| ==> Drawable(lens[i], draw[i])
  }

  function Sum(draw: seq<nat>): nat {
    if draw == [] then 0 else Sum(draw[..|draw| - 1]) + draw[|draw| - 1]
  }

  lemma {:induction false} DrawAtMost(lens: seq<Triple>, draw: seq<nat>)
    requires DrawOf(lens, draw)
    ensures Sum(draw) <= SumMaxDraw(lens)
    decreases |lens|
  {
    if lens != [] {
      DrawAtMost(lens[..|lens| - 1], draw[..|draw| - 1]);
    }
  }

  lemma {:induction false} DrawAtLeast(lens: seq<Triple>, draw: seq<nat>)
    requires DrawOf(lens, draw) && lens != []
    ensures draw[0] <= Sum(draw)
    decreases |lens|
  {
    if |lens| > 1 {
      DrawAtLeast(lens[..|lens| - 1], draw[..|draw| - 1]);
    } else {
      assert draw == [draw[0]] && draw[..0] == [];
    }
  }

  /** The greatest draw exists. */
  lemma {:induction false} GreatestDraw(lens: seq<Triple>) returns (draw: seq<nat>)
    ensures DrawOf(lens, draw) && Sum(draw) == SumMaxDraw(lens)
    decreases |lens|
  {
    if lens == [] {
      draw := [];
    } else {
      var front := GreatestDraw(lens[..|lens| - 1]);
      var y := lens[|lens| - 1];
      draw := front + [y.MaxDraw()];
      assert draw[..|draw| - 1] == front;
      forall i | 0 <= i < |lens| ensures Drawable(lens[i], draw[i]) {
        if i < |lens| - 1 {
          assert lens[..|lens| - 1][i] == lens[i];
        }
      }
    }
  }

  lemma {:induction false} NoOverflow(lens: seq<Triple>)
    requires SumMax(lens) < TWO63
    ensures WrappedMax(lens) == SumMax(lens) && SumMaxDraw(lens) <= SumMax(lens)
    decreases |lens|
  {
    if lens != [] {
      NoOverflow(lens[..|lens| - 1]);
    }
  }

  /**
   * For lengths that ParsePadding accepts, every draw totals 35 to 65553 exactly when the greatest draws do; and that is
   * the case whenever the sum it checked did not overflow.
   */
  lemma DrawsInRange(lens: seq<Triple>)
    requires Accepted(lens)
    ensures (forall draw :: DrawOf(Effective(lens), draw) ==> 35 <= Sum(draw) <= 65553) <==> SumMaxDraw(Effective(lens)) <= 65553
    ensures SumMax(lens) < TWO63 ==> SumMaxDraw(Effective(lens)) <= 65553
  {
    var e := Effective(lens);
    if lens == [] {
      assert e[..1] == [e[0]] && [e[0]][..0] == [];
      assert SumMaxDraw([e[0]]) == SumMaxDraw([]) + 1110;
      assert SumMaxDraw(e) == 1110 + 3332;
    }
    if SumMax(lens) < TWO63 && lens != [] {
      NoOverflow(lens);
    }
    forall draw | DrawOf(e, draw) && SumMaxDraw(e) <= 65553 ensures 35 <= Sum(draw) <= 65553 {
      DrawAtMost(e, draw);
      DrawAtLeast(e, draw);
      assert Drawable(e[0], draw[0]);
    }
    if SumMaxDraw(e) > 65553 {
      var draw := GreatestDraw(e);
    }
  }

  /** The condition is needed: two lengths whose sum wraps around are accepted and give a far too long padding. */
  lemma OverflowAccepted()
    ensures var y := Triple(100, TWO63 - 1, TWO63 - 1);
            Accepted([y, y]) && DrawOf([y, y], [TWO63 - 1, TWO63 - 1]) && Sum([TWO63 - 1, TWO63 - 1]) > 65553
  {
    var y := Triple(100, TWO63 - 1, TWO63 - 1);
    assert [y, y][..1] == [y] && [y][..0] == [];
    assert WrappedMax([y]) == Wrap64(0 + (TWO63 - 1)) == TWO63 - 1;
    assert WrappedMax([y, y]) == Wrap64((TWO63 - 1) + (TWO63 - 1)) == -2;
    var d: seq<nat> := [TWO63 - 1, TWO63 - 1];
    assert d[..1] == [TWO63 - 1];
    assert Sum(d) == Sum(d[..1]) + (TWO63 - 1);
  }

  /** crypto.RandBetween. */
  method RandBetween(from: nat, to: nat) returns (l: nat)
    ensures Between(Triple(0, from, to), l)
  {
    if from == to {
      return from;
    }
    var lo, hi := if from > to then to else from, if from > to then from else to;
    l :| lo <= l < hi;
  }

  lemma WrapAdd(a: int, l: int)
    ensures Wrap64(Wrap64(a) + l) == Wrap64(a + l)
  {
    var w := Wrap64(a);
    assert w == a - TWO64 * (a / TWO64) || w == a - TWO64 * (a / TWO64 + 1);
    var k := if w == a - TWO64 * (a / TWO64) then a / TWO64 else a / TWO64 + 1;
    assert w + l == (a + l) - TWO64 * k;
    ModShift(a + l, k);
  }

  lemma WrapSmall(x: nat)
    requires x < TWO63
    ensures Wrap64(x) == x
  {
  }

  lemma ModShift(x: int, k: int)
    ensures (x - TWO64 * k) % TWO64 == x % TWO64
  {
    var q, r := x / TWO64, x % TWO64;
    assert x - TWO64 * k == TWO64 * (q - k) + r;
  }

  /** CreatPadding: the drawn lengths and their total in 64 bits, which is in range whenever the greatest draw is. */
  method CreatPadding(configured: seq<Triple>) returns (length: int, lens: seq<nat>)
    requires Accepted(configured)
    ensures DrawOf(Effective(configured), lens) && length == Wrap64(Sum(lens))
    ensures SumMaxDraw(Effective(configured)) <= 65553 ==> length == Sum(lens) && 35 <= length <= 65553
    ensures SumMax(configured) < TWO63 ==> SumMaxDraw(Effective(configured)) <= 65553
  {
    hide Wrap64, SumMax, SumMaxDraw, WrappedMax;
    var paddingLens := Effective(configured);
    length, lens := 0, [];
    WrapSmall(0);
    var i := 0;
    while i < |paddingLens|
      invariant 0 <= i <= |paddingLens| && |lens| == i && length == Wrap64(Sum(lens))
      invariant forall k :: 0 <= k < i ==> Drawable(paddingLens[k], lens[k])
    {
      var y := paddingLens[i];
      var l := 0;
      var dice := RandBetween(0, 100);
      if y.chance >= dice {
        l := RandBetween(y.from, y.to);
      }
      assert (lens + [l])[..|lens|] == lens;
      WrapAdd(Sum(lens), l);
      lens := lens + [l];
      length := Wrap64(length + l);
      i := i + 1;
    }
    DrawsInRange(configured);
    if Sum(lens) < TWO63 {
      WrapSmall(Sum(lens));
    }
  }

  /** A hello goes out in fragments of the drawn lengths, the first one enlarged by the part in front of the padding. */
  method SendFragments(hello: bytes, front: nat, lens: seq<nat>) returns (writes: seq<bytes>)
    requires lens != [] && |hello| == front + Sum(lens)
    ensures Concat(writes) == hello
  {
    writes := [];
    var rest := hello;
    var i := 0;
    assert lens[..0] == [] && lens[..|lens|] == lens;
    while i < |lens|
      invariant 0 <= i <= |lens|
      invariant Concat(writes) + rest == hello
      invariant |rest| == Sum(lens) - Sum(lens[..i]) + (if i == 0 then front else 0)
    {
      assert lens[..i + 1][..i] == lens[..i];
      SumMonotone(lens, i + 1);
      var l := if i == 0 then front + lens[0] else lens[i];
      if l > 0 {
        ConcatSnoc(writes, rest[..l]);
        assert rest == rest[..l] + rest[l..];
        Assoc(Concat(writes), rest[..l], rest[l..]);
        writes := writes + [rest[..l]];
        rest := rest[l..];
      }
      i := i + 1;
    }
    assert lens[..i] == lens && rest == [];
    NilRight(Concat(writes));
  }

  lemma {:induction false} SumMonotone(lens: seq<nat>, i: nat)
    requires i <= |lens|
    ensures Sum(lens[..i]) <= Sum(lens)
    decreases |lens|
  {
    if i < |lens| {
      SumMonotone(lens[..|lens| - 1], i);
      assert lens[..|lens| - 1][..i] == lens[..i];
    } else {
      assert lens[..i] == lens;
    }
  }
}
