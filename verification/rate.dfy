/**
 The target rate `reqQPS`, an int32: the arrow keys double and halve it,
 and the dispatcher sleeps `int32(time.Second) / reqQPS` nanoseconds
 between two permissions to send.
 */
module Rate {
  import Int32
  import Clock

  /** The target rate at start-up. */
  const InitialQPS: int := 1

  /** Arrow-up: `2*q`, wrapping around in int32. The result is the int32
      congruent to the double, and the double itself when that fits. */
  function Up(q: int): (r: int)
    requires Int32.InRange(q)
    ensures Int32.InRange(r)
    ensures (2 * q - r) % Int32.Modulus == 0
    ensures Int32.InRange(2 * q) ==> r == 2 * q
  {
    Int32.Wrap(2 * q)
  }

  /** Arrow-down: `q/2`, rounded toward zero. */
  function Down(q: int): (r: int)
    requires Int32.InRange(q)
    ensures Int32.InRange(r)
    ensures q >= 0 ==> 0 <= 2 * r <= q <= 2 * r + 1
    ensures q < 0 ==> 2 * r - 1 <= q <= 2 * r <= 0
  {
    Int32.Quot(q, 2)
  }

  /** Doubling is exact as long as the double fits in an int32. */
  lemma UpDoubles(q: int)
    requires Int32.InRange(q) && Int32.InRange(2 * q)
    ensures Up(q) == 2 * q
  {
  }

  /** Arrow-down undoes arrow-up whenever the doubled rate fits. */
  lemma DownUp(q: int)
    requires Int32.InRange(q) && Int32.InRange(2 * q)
    ensures Down(Up(q)) == q
  {
  }

  /** The outcome of computing the pause between two permissions. */
  datatype Delay =
    | Sleep(nanos: int)
    | DivideByZeroPanic

  /** `time.Duration(int32(time.Second) / q)`: a rate of zero makes the
      division panic; a positive rate gives the longest pause at which `q`
      pauses fit into one second; a negative rate gives a pause that is not
      positive, so `time.Sleep` returns at once. */
  function SleepNanos(q: int): (d: Delay)
    requires Int32.InRange(q)
    ensures d.DivideByZeroPanic? <==> q == 0
    ensures q > 0 ==> d.Sleep? && 0 <= d.nanos <= Clock.Second
    ensures q > 0 ==> d.nanos * q <= Clock.Second < (d.nanos + 1) * q
    ensures q < 0 ==> d.Sleep? && d.nanos <= 0
  {
    if q == 0 then DivideByZeroPanic
    else
      var n := Int32.Quot(Int32.Wrap(Clock.Second), q);
      SleepBounds(q, n);
      Sleep(n)
  }

  lemma SleepBounds(q: int, n: int)
    requires Int32.InRange(q) && q != 0
    requires n == Int32.Quot(Clock.Second, q)
    ensures q > 0 ==> 0 <= n <= Clock.Second && n * q <= Clock.Second < (n + 1) * q
    ensures q < 0 ==> n <= 0
  {
    var r := Clock.Second - q * n;
    assert 0 <= r < Int32.Abs(q);
    assert (n + 1) * q == n * q + q;
    if q > 0 {
      MulSign(q, n);
    } else {
      MulSign(-q, -n);
    }
  }

  /** The sign of a product with a positive factor. */
  lemma MulSign(a: int, b: int)
    requires a > 0
    ensures b < 0 ==> a * b <= -a
    ensures b > 0 ==> a * b >= b
  {
  }

  /** The keys that change the target rate. */
  datatype Key = ArrowUp | ArrowDown

  /** One key press: arrow-up doubles the rate modulo 2^32, arrow-down
      halves it rounding toward zero. */
  function Press(q: int, k: Key): (r: int)
    requires Int32.InRange(q)
    ensures Int32.InRange(r)
    ensures k.ArrowUp? ==> (2 * q - r) % Int32.Modulus == 0
    ensures k.ArrowUp? && Int32.InRange(2 * q) ==> r == 2 * q
    ensures k.ArrowDown? ==> -1 <= q - 2 * r <= 1
    ensures k.ArrowDown? && q - 2 * r != 0 ==> (q - 2 * r < 0 <==> q < 0)
  {
    match k
    case ArrowUp => Up(q)
    case ArrowDown => Down(q)
  }

  /** The target rate after the keys are pressed in order. */
  function PressAll(q: int, keys: seq<Key>): (r: int)
    requires Int32.InRange(q)
    ensures Int32.InRange(r)
  {
    if |keys| == 0 then q
    else Press(PressAll(q, keys[..|keys| - 1]), keys[|keys| - 1])
  }

  /** Pressing one run of keys and then another is pressing their
      concatenation. */
  lemma {:induction false} PressAllAppend(q: int, a: seq<Key>, b: seq<Key>)
    requires Int32.InRange(q)
    ensures PressAll(q, a + b) == PressAll(PressAll(q, a), b)
  {
    if |b| > 0 {
      PressAllAppend(q, a, b[..|b| - 1]);
      assert (a + b)[..|a + b| - 1] == a + b[..|b| - 1];
    } else {
      assert a + b == a;
    }
  }

  function Ups(n: nat): seq<Key> {
    seq(n, _ => ArrowUp)
  }

  function Pow2(n: nat): nat {
    if n == 0 then 1 else 2 * Pow2(n - 1)
  }

  lemma {:induction false} Pow2Monotone(m: nat, n: nat)
    requires m <= n
    ensures Pow2(m) <= Pow2(n)
  {
    if m < n {
      Pow2Monotone(m, n - 1);
    }
  }

  lemma Pow2Thirty()
    ensures Pow2(30) == 0x4000_0000
  {
    assert Pow2(10) == 1024;
    assert Pow2(20) == 1024 * 1024;
  }

  /** Pressing arrow-up `n` times from the initial rate gives 2^n while
      that fits. */
  lemma {:induction false} UpsFromInitial(n: nat)
    requires n <= 30
    ensures Pow2(n) <= 0x4000_0000
    ensures PressAll(InitialQPS, Ups(n)) == Pow2(n)
  {
    Pow2Monotone(n, 30);
    Pow2Thirty();
    if n > 0 {
      UpsFromInitial(n - 1);
      assert Ups(n)[..n - 1] == Ups(n - 1);
    }
  }

  /** One arrow-down from the initial rate sets it to zero, and the next
      pause computation divides by zero. */
  lemma DownFromInitialPanics()
    ensures PressAll(InitialQPS, [ArrowDown]) == 0
    ensures SleepNanos(PressAll(InitialQPS, [ArrowDown])) == DivideByZeroPanic
  {
    assert [ArrowDown][..0] == [];
  }

  /** Thirty-one arrow-ups from the initial rate wrap it to the most
      negative int32, so the dispatcher stops pausing; the thirty-second
      wraps it to zero and the pause computation divides by zero. */
  lemma UpsFromInitialOverflow()
    ensures PressAll(InitialQPS, Ups(31)) == Int32.Min
    ensures SleepNanos(PressAll(InitialQPS, Ups(31))) == Sleep(0)
    ensures PressAll(InitialQPS, Ups(32)) == 0
    ensures SleepNanos(PressAll(InitialQPS, Ups(32))) == DivideByZeroPanic
  {
    UpsFromInitial(30);
    Pow2Thirty();
    assert Ups(31)[..30] == Ups(30);
    assert Ups(32)[..31] == Ups(31);
  }

  /** A target rate the dispatcher can pace: positive and an int32. */
  predicate ValidRate(q: int) {
    1 <= q <= Int32.Max
  }

  /** Arrow-up that saturates at the largest int32 instead of wrapping. */
  function GuardedUp(q: int): (r: int)
    requires ValidRate(q)
    ensures ValidRate(r)
    ensures q <= Int32.Max / 2 ==> r == 2 * q
    ensures q > Int32.Max / 2 ==> r == Int32.Max
  {
    if q > Int32.Max / 2 then Int32.Max else 2 * q
  }

  /** Arrow-down that stops at one instead of reaching zero. */
  function GuardedDown(q: int): (r: int)
    requires ValidRate(q)
    ensures ValidRate(r)
    ensures q >= 2 ==> r == Down(q)
    ensures q == 1 ==> r == 1
  {
    var h := Down(q);
    if h < 1 then 1 else h
  }

  /** The guarded keys still undo each other while doubling fits. */
  lemma GuardedDownUp(q: int)
    requires ValidRate(q) && 2 * q <= Int32.Max
    ensures GuardedDown(GuardedUp(q)) == q
  {
  }

  function GuardedPress(q: int, k: Key): (r: int)
    requires ValidRate(q)
    ensures ValidRate(r)
  {
    match k
    case ArrowUp => GuardedUp(q)
    case ArrowDown => GuardedDown(q)
  }

  /** The guarded target rate after the keys are pressed in order. */
  function GuardedPressAll(q: int, keys: seq<Key>): (r: int)
    requires ValidRate(q)
    ensures ValidRate(r)
  {
    if |keys| == 0 then q
    else GuardedPress(GuardedPressAll(q, keys[..|keys| - 1]), keys[|keys| - 1])
  }

  /** With the guarded keys, no sequence of presses from start-up ever
      makes the pause computation panic, and every pause is at most a
      second. */
  lemma GuardedNeverPanics(keys: seq<Key>)
    ensures var q := GuardedPressAll(InitialQPS, keys);
      && ValidRate(q)
      && SleepNanos(q).Sleep?
      && 0 <= SleepNanos(q).nanos <= Clock.Second
  {
  }
}
