/** Result types and fixed-width integers shared by every module. */
module Basics {

  datatype Option<+T> = None | Some(value: T)

  datatype Result<+T, +E> = Ok(value: T) | Err(error: E)

  type byte = x: int | 0 <= x < 256

  type u16 = x: int | 0 <= x < 0x1_0000

  const U64_RANGE := 0x1_0000_0000_0000_0000

  /** An `AtomicU64` counter: `fetch_add` and `fetch_sub` wrap around. */
  type u64 = x: int | 0 <= x < U64_RANGE

  function FetchAdd(counter: u64, n: int): u64 {
    (counter + n) % U64_RANGE
  }

  lemma {:induction false} WholeTurns(x: nat, turns: nat)
    ensures (x + turns * U64_RANGE) % U64_RANGE == x % U64_RANGE
  {
    if turns > 0 {
      WholeTurns(x, turns - 1);
      var y := x + (turns - 1) * U64_RANGE;
      assert x + turns * U64_RANGE == y + U64_RANGE;
      assert (y + U64_RANGE) % U64_RANGE == y % U64_RANGE;
    }
  }

  lemma AddTwice(counter: u64, a: nat, b: nat)
    ensures FetchAdd(FetchAdd(counter, a), b) == FetchAdd(counter, a + b)
  {
    var sum := counter + a;
    WholeTurns(sum % U64_RANGE + b, sum / U64_RANGE);
  }

  lemma Assoc<T>(a: seq<T>, b: seq<T>, c: seq<T>)
    ensures a + (b + c) == (a + b) + c
  {
  }

  lemma FrontAndBack<T>(a: seq<T>, b: seq<T>)
    ensures (a + b)[..|a|] == a && (a + b)[|a|..] == b
  {
  }

  /** Concatenation of a sequence of pieces. */
  function Concat<T>(pieces: seq<seq<T>>): seq<T> {
    if pieces == [] then [] else pieces[0] + Concat(pieces[1..])
  }

  lemma {:induction false} ConcatAppend<T>(a: seq<seq<T>>, b: seq<seq<T>>)
    ensures Concat(a + b) == Concat(a) + Concat(b)
  {
    if a == [] {
      assert a + b == b;
    } else {
      assert (a + b)[1..] == a[1..] + b;
      ConcatAppend(a[1..], b);
    }
  }
}
