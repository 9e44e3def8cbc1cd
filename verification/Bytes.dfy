/** Byte sequences and the few facts about concatenation the other modules share. */
module Bytes {

  type Byte = b: int | 0 <= b < 256
  type Bytes = seq<Byte>

  datatype Option<+T> = None | Some(value: T)

  function Min(a: nat, b: nat): (m: nat)
    ensures m <= a && m <= b && (m == a || m == b)
  {
    if a < b then a else b
  }

  /** All parts, one after the other. */
  function Concat(parts: seq<Bytes>): Bytes {
    if parts == [] then [] else parts[0] + Concat(parts[1..])
  }

  lemma {:induction false} ConcatAppend(xs: seq<Bytes>, ys: seq<Bytes>)
    ensures Concat(xs + ys) == Concat(xs) + Concat(ys)
  {
    if xs == [] {
      assert xs + ys == ys;
    } else {
      calc {
        Concat(xs + ys);
        { assert (xs + ys)[1..] == xs[1..] + ys; }
        xs[0] + Concat(xs[1..] + ys);
        { ConcatAppend(xs[1..], ys); }
        xs[0] + (Concat(xs[1..]) + Concat(ys));
        Concat(xs) + Concat(ys);
      }
    }
  }

  lemma {:induction false} ConcatSnoc(xs: seq<Bytes>, y: Bytes)
    ensures Concat(xs + [y]) == Concat(xs) + y
  {
    ConcatAppend(xs, [y]);
    assert Concat([y]) == y + Concat([]);
  }

  lemma {:induction false} SliceBehind(buf: Bytes, k: nat, i: nat, j: nat)
    requires k <= |buf| && i <= j <= |buf| - k
    ensures buf[k..][i..j] == buf[k + i..k + j]
  {
    forall m | 0 <= m < j - i ensures buf[k..][i..j][m] == buf[k + i..k + j][m] {
    }
  }

  /** Total length of all parts. */
  function TotalLen(parts: seq<Bytes>): nat {
    if parts == [] then 0 else |parts[0]| + TotalLen(parts[1..])
  }

  lemma {:induction false} TotalLenSnoc(xs: seq<Bytes>, y: Bytes)
    ensures TotalLen(xs + [y]) == TotalLen(xs) + |y|
  {
    if xs == [] {
      assert xs + [y] == [y];
    } else {
      TotalLenSnoc(xs[1..], y);
      assert (xs + [y])[1..] == xs[1..] + [y];
    }
  }
}
