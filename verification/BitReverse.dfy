/** The software bit reversal and leading-zero count for cores without the
    instructions, on 32-bit words seen as their bits, least significant first. */
module BitReverse {
  const WIDTH: nat := 32

  type Word = w: seq<bool> | |w| == WIDTH witness seq(WIDTH, i => false)

  function Zero(): Word {
    seq(WIDTH, i => false)
  }

  /** `1 << n`. */
  function OneAt(n: nat): Word
    requires n < WIDTH
  {
    seq(WIDTH, i => i == n)
  }

  /** `w << n`: what is shifted past bit 31 is lost. */
  function Shl(w: Word, n: nat): Word {
    seq(WIDTH, i requires 0 <= i < WIDTH => i >= n && w[i - n])
  }

  function Shr(w: Word, n: nat): Word {
    seq(WIDTH, i requires 0 <= i < WIDTH => i + n < WIDTH && w[i + n])
  }

  function And(a: Word, b: Word): Word {
    seq(WIDTH, i requires 0 <= i < WIDTH => a[i] && b[i])
  }

  function Or(a: Word, b: Word): Word {
    seq(WIDTH, i requires 0 <= i < WIDTH => a[i] || b[i])
  }

  function Reversed(w: Word): Word {
    seq(WIDTH, i requires 0 <= i < WIDTH => w[WIDTH - 1 - i])
  }

  lemma SomeBit(w: Word) returns (i: nat)
    requires w != Zero()
    ensures i < WIDTH && w[i]
  {
    assert exists k: nat :: k < WIDTH && w[k] != Zero()[k];
    i :| i < WIDTH && w[i] != Zero()[i];
  }

  /** `__RBIT`: `r` starts as the whole word and the loop stops as soon as no bit is
      left, so the high bits of `r` are leftovers until the last shift drops them. */
  method Rbit(value: Word) returns (result: Word)
    ensures forall k | 0 <= k < WIDTH :: result[k] == value[WIDTH - 1 - k]
  {
    var sc: nat := 31;
    var r := value;
    var v := Shr(value, 1);
    while v != Zero()
      invariant sc <= 31
      invariant v == Shr(value, WIDTH - sc)
      invariant forall i | 0 <= i <= 31 - sc :: r[i] == value[31 - sc - i]
      decreases sc
    {
      ghost var top := SomeBit(v);
      assert top + (WIDTH - sc) < WIDTH;
      ghost var before := r;
      r := Shl(r, 1);
      r := Or(r, And(v, OneAt(0)));
      assert r[0] == v[0] == value[WIDTH - sc];
      assert forall i | 1 <= i < WIDTH :: r[i] == before[i - 1];
      sc := sc - 1;
      v := Shr(v, 1);
    }
    forall m | WIDTH - sc <= m < WIDTH ensures !value[m] {
      assert v[m - (WIDTH - sc)] == Zero()[m - (WIDTH - sc)];
    }
    result := Shl(r, sc);
  }

  /** Reversing twice changes nothing. */
  lemma ReversedTwice(w: Word)
    ensures Reversed(Reversed(w)) == w
  {
  }

  /** How many bits from the bottom are zero. */
  function TrailingZeros(w: seq<bool>): (n: nat)
    ensures n <= |w|
  {
    if w == [] || w[0] then 0 else 1 + TrailingZeros(w[1..])
  }

  lemma {:induction false} TrailingZerosIs(w: seq<bool>, n: nat)
    requires n <= |w| && (forall i | 0 <= i < n :: !w[i]) && (n < |w| ==> w[n])
    ensures TrailingZeros(w) == n
  {
    if n > 0 {
      TrailingZerosIs(w[1..], n - 1);
    }
  }

  /** `__CLZ`: a one-bit mask walks down from the top.  On any word, zero included,
      the count is the number of trailing zeros of the reversed word. */
  method Clz(data: Word) returns (count: nat)
    ensures count == TrailingZeros(Reversed(data))
    ensures count <= WIDTH && (count == WIDTH <==> data == Zero())
  {
    if data == Zero() {
      TrailingZerosIs(Reversed(data), WIDTH);
      return 32;
    }
    count := 0;
    var mask := OneAt(31);
    while And(data, mask) == Zero()
      invariant count <= 31 && mask == OneAt(31 - count)
      invariant forall i | WIDTH - count <= i < WIDTH :: !data[i]
      decreases WIDTH - count
    {
      assert And(data, mask)[31 - count] == Zero()[31 - count];
      ghost var top := SomeBit(data);
      assert top < 31 - count;
      count := count + 1;
      mask := Shr(mask, 1);
    }
    ghost var found := SomeBit(And(data, mask));
    assert found == 31 - count;
    TrailingZerosIs(Reversed(data), count);
  }
}
