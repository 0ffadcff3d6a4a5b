// The seeded Fisher-Yates shuffle of src/common/utils/seeded-shuffle.ts, division exact.
module SeededShuffle {
  import opened Wrappers

  const MODULUS := 0x1_0000_0000
  const MAX_STATE := 0xffff_ffff
  const MULTIPLIER := 1664525
  const INCREMENT := 1013904223
  const SAFE_INTEGERS := 0x20_0000_0000_0000

  /** A UTF-16 code unit, as `charCodeAt` gives it. */
  type CodeUnit = n: nat | n < 0x1_0000

  predicate IsState(s: int) {
    0 <= s < MODULUS
  }

  /** `n >>> 0`, for integers that a double represents exactly. */
  function ToUint32(n: nat): (s: nat)
    requires n < SAFE_INTEGERS
    ensures IsState(s)
  {
    n % MODULUS
  }

  /** No intermediate value leaves the integers that a double represents exactly. */
  lemma IntermediatesAreExact(state: nat, c: CodeUnit)
    requires IsState(state)
    ensures state * 31 + c < SAFE_INTEGERS && state * MULTIPLIER + INCREMENT < SAFE_INTEGERS
  {
  }

  function HashSeed(seed: seq<CodeUnit>): (s: nat)
    ensures IsState(s)
  {
    if seed == [] then 0
    else
      var state := HashSeed(seed[..|seed| - 1]);
      IntermediatesAreExact(state, seed[|seed| - 1]);
      ToUint32(state * 31 + seed[|seed| - 1])
  }

  /** One step of the generator. */
  function Next(state: nat): (s: nat)
    requires IsState(state)
    ensures IsState(s)
  {
    IntermediatesAreExact(state, 0);
    ToUint32(state * MULTIPLIER + INCREMENT)
  }

  /** `Math.floor(state / 0xffffffff * (index + 1))` */
  function SwapIndex(state: nat, index: nat): nat {
    state * (index + 1) / MAX_STATE
  }

  // ---- The generator ----------------------------------------------------------

  const INVERSE := 4276115653
  const WRAPS := 1657219

  /** The step backwards: the multiplier is odd, so it has an inverse modulo 2^32. */
  function Previous(state: nat): (s: nat)
    requires IsState(state)
    ensures IsState(s)
  {
    (state + MODULUS - INCREMENT) * INVERSE % MODULUS
  }

  lemma RemainderIs(n: int, s: int, t: int)
    requires IsState(s) && n == s + MODULUS * t
    ensures n % MODULUS == s
  {
  }

  lemma {:induction false} NextIsBijective(state: nat)
    requires IsState(state)
    ensures Previous(Next(state)) == state && Next(Previous(state)) == state
  {
    assert MULTIPLIER * INVERSE == 1 + MODULUS * WRAPS;
    var x := state * MULTIPLIER + INCREMENT;
    var q := x / MODULUS;
    assert Next(state) == x - MODULUS * q;
    RemainderIs((Next(state) + MODULUS - INCREMENT) * INVERSE, state, state * WRAPS + (1 - q) * INVERSE);
    var y := (state + MODULUS - INCREMENT) * INVERSE;
    var p := y / MODULUS;
    assert Previous(state) == y - MODULUS * p;
    RemainderIs(Previous(state) * MULTIPLIER + INCREMENT, state,
                (state + MODULUS - INCREMENT) * WRAPS + 1 - p * MULTIPLIER);
  }

  const BAD_STATE := 653637408

  /** Exactly one state is followed by the largest draw. */
  lemma {:induction false} OneBadState(state: nat)
    requires IsState(state)
    ensures Next(state) == MAX_STATE <==> state == BAD_STATE
  {
    assert Previous(MAX_STATE) == BAD_STATE;
    hide Next, Previous;
    NextIsBijective(state);
    NextIsBijective(MAX_STATE);
  }

  /** A draw stays within the prefix, except that the largest lands one past it. */
  lemma SwapIndexRange(state: nat, index: nat)
    requires IsState(state)
    ensures state < MAX_STATE ==> SwapIndex(state, index) <= index
    ensures state == MAX_STATE ==> SwapIndex(state, index) == index + 1
  {
    if state < MAX_STATE {
      ProductBelow(MAX_STATE, state, index + 1);
    }
  }

  lemma ProductBelow(m: nat, x: nat, n: nat)
    requires x < m && n > 0
    ensures x * n / m < n
  {
    var q := x * n / m;
    assert q * m <= x * n;
    if q >= n {
      MultiplyMonotone(n, q, m);
      MultiplyMonotone(x + 1, m, n);
    }
  }

  lemma MultiplyMonotone(a: nat, b: nat, c: nat)
    requires a <= b
    ensures a * c <= b * c
  {
  }

  /** Every place of the prefix is drawn by some state. */
  lemma EveryIndexIsDrawn(index: nat, j: nat) returns (state: nat)
    requires j <= index < MAX_STATE
    ensures IsState(state) && SwapIndex(state, index) == j
  {
    var n := index + 1;
    state := (j * MAX_STATE + index) / n;
    var r := (j * MAX_STATE + index) % n;
    assert state * n == j * MAX_STATE + (index - r);
    QuotientIs(state * n, j, index - r);
    MultiplyMonotone(j, index, MAX_STATE);
    assert state * n <= index * MAX_STATE + index == index * MODULUS < MODULUS * n;
    CancelFactor(state, MODULUS, n);
  }

  lemma CancelFactor(a: nat, b: nat, n: nat)
    requires a * n < b * n
    ensures a < b
  {
    if b <= a {
      MultiplyMonotone(b, a, n);
    }
  }

  lemma QuotientIs(x: nat, q: nat, r: nat)
    requires x == q * MAX_STATE + r && r < MAX_STATE
    ensures x / MAX_STATE == q
  {
  }

  // ---- The shuffle ------------------------------------------------------------

  /** `[a[i], a[j]] = [a[j], a[i]]`; one past the end the array grows, and `undefined` comes back. */
  function Swap<T>(xs: seq<Option<T>>, i: nat, j: nat): (r: seq<Option<T>>)
    requires i < |xs| && j <= |xs|
    ensures |r| == if j < |xs| then |xs| else |xs| + 1
  {
    if j < |xs| then xs[i := xs[j]][j := xs[i]] else xs[i := None] + [xs[i]]
  }

  /** The loop from `index` down to 1. */
  function ShuffleFrom<T>(xs: seq<Option<T>>, state: nat, index: nat): seq<Option<T>>
    requires IsState(state) && (index > 0 ==> index < |xs|)
    decreases index
  {
    if index == 0 then xs
    else
      var drawn := Next(state);
      SwapIndexRange(drawn, index);
      ShuffleFrom(Swap(xs, index, SwapIndex(drawn, index)), drawn, index - 1)
  }

  function Defined<T>(items: seq<T>): (r: seq<Option<T>>)
    ensures |r| == |items| && forall i :: 0 <= i < |items| ==> r[i] == Some(items[i])
  {
    seq(|items|, i requires 0 <= i < |items| => Some(items[i]))
  }

  function Shuffled<T>(items: seq<T>, seed: seq<CodeUnit>): seq<Option<T>> {
    if items == [] then [] else ShuffleFrom(Defined(items), HashSeed(seed), |items| - 1)
  }

  method HashLoop(seed: seq<CodeUnit>) returns (state: nat)
    ensures state == HashSeed(seed)
  {
    state := 0;
    for k := 0 to |seed|
      invariant state == HashSeed(seed[..k])
    {
      IntermediatesAreExact(state, seed[k]);
      assert seed[..k + 1][..k] == seed[..k];
      state := ToUint32(state * 31 + seed[k]);
    }
    assert seed[..|seed|] == seed;
  }

  /** `[...items]`, with one spare place. */
  method Copy<T>(items: seq<T>) returns (shuffled: array<Option<T>>)
    ensures fresh(shuffled) && shuffled.Length == |items| + 1 && shuffled[..|items|] == Defined(items)
  {
    shuffled := new Option<T>[|items| + 1](_ => None);
    for k := 0 to |items|
      invariant forall i :: 0 <= i < k ==> shuffled[i] == Some(items[i])
    {
      shuffled[k] := Some(items[k]);
    }
  }

  method SwapInPlace<T>(shuffled: array<Option<T>>, length: nat, i: nat, j: nat) returns (after: nat)
    requires i < length && j <= length && j < shuffled.Length && length <= shuffled.Length
    modifies shuffled
    ensures after == (if j < length then length else length + 1) <= shuffled.Length
    ensures shuffled[..after] == Swap(old(shuffled[..length]), i, j)
    ensures shuffled[j] == old(shuffled[i]) && (i != j ==> shuffled[i] == if j < length then old(shuffled[j]) else None)
    ensures forall k :: 0 <= k < shuffled.Length && k != i && k != j ==> shuffled[k] == old(shuffled[k])
  {
    after := length;
    if j < length {
      shuffled[i], shuffled[j] := shuffled[j], shuffled[i];
    } else {
      shuffled[i], shuffled[j] := None, shuffled[i];
      after := length + 1;
    }
  }

  method Shuffle<T>(items: seq<T>, seed: seq<CodeUnit>) returns (r: seq<Option<T>>)
    ensures r == Shuffled(items, seed)
  {
    hide Swap, Next, SwapIndex, HashSeed;
    var n := |items|;
    var shuffled := Copy(items);
    var state := HashLoop(seed);
    if n == 0 {
      return [];
    }
    var length, index := n, n - 1;
    while index > 0
      invariant IsState(state) && 0 <= index < n <= length <= n + 1 && shuffled.Length == n + 1
      invariant length == n + 1 ==> index < n - 1
      invariant Shuffled(items, seed) == ShuffleFrom(shuffled[..length], state, index)
    {
      state := Next(state);
      SwapIndexRange(state, index);
      length := SwapInPlace(shuffled, length, index, SwapIndex(state, index));
      index := index - 1;
    }
    return shuffled[..length];
  }

  ghost predicate IsTrace<T>(states: seq<nat>, lists: seq<seq<Option<T>>>) {
    |states| == |lists| > 0
    && forall k :: 0 < k < |states| ==> IsSwap(states[k - 1], states[k], lists[k - 1], lists[k], |states| - k)
  }

  /** The next state is drawn, and place `i` exchanged with the drawn share of the places up to it. */
  ghost predicate IsSwap<T>(before: nat, drawn: nat, xs: seq<Option<T>>, ys: seq<Option<T>>, i: nat) {
    && drawn == (before * 1664525 + 1013904223) % 0x1_0000_0000
    && var j := drawn * (i + 1) / 0xffff_ffff;
       i < |xs| && j <= |xs| && ys == if j < |xs| then xs[i := xs[j]][j := xs[i]] else xs[i := None] + [xs[i]]
  }

  lemma {:induction false} TraceFrom<T>(xs: seq<Option<T>>, state: nat, index: nat)
    returns (states: seq<nat>, lists: seq<seq<Option<T>>>)
    requires IsState(state) && (index > 0 ==> index < |xs|)
    ensures IsTrace(states, lists) && |states| == index + 1 && states[0] == state && lists[0] == xs
    ensures lists[index] == ShuffleFrom(xs, state, index)
    decreases index
  {
    if index == 0 {
      states, lists := [state], [xs];
    } else {
      hide Next, SwapIndex, Swap, IsSwap;
      var drawn := Next(state);
      SwapIndexRange(drawn, index);
      var ys := Swap(xs, index, SwapIndex(drawn, index));
      var later, rest := TraceFrom(ys, drawn, index - 1);
      states, lists := [state] + later, [xs] + rest;
      SwapStep(state, xs, index);
      forall k | 0 < k < |states| ensures IsSwap(states[k - 1], states[k], lists[k - 1], lists[k], |states| - k) {
        if k > 1 {
          assert IsSwap(later[k - 2], later[k - 1], rest[k - 2], rest[k - 1], |later| - (k - 1));
        }
      }
    }
  }

  lemma SwapStep<T>(state: nat, xs: seq<Option<T>>, index: nat)
    requires IsState(state) && index < |xs|
    ensures var drawn := Next(state);
            SwapIndex(drawn, index) <= |xs|
            && IsSwap(state, drawn, xs, Swap(xs, index, SwapIndex(drawn, index)), index)
  {
    SwapIndexRange(Next(state), index);
  }

  /**
   * What the shuffle is, swap by swap: the states follow the generator from the seed's
   * hash, each state draws the place that the next one from the end is swapped with.
   */
  lemma ShuffleTrace<T>(items: seq<T>, seed: seq<CodeUnit>) returns (states: seq<nat>, lists: seq<seq<Option<T>>>)
    requires items != []
    ensures |states| == |lists| == |items|
    ensures states[0] == HashSeed(seed) && lists[0] == Defined(items) && lists[|items| - 1] == Shuffled(items, seed)
    ensures forall k :: 0 < k < |items| ==>
              IsSwap(states[k - 1], states[k], lists[k - 1], lists[k], |items| - k)
  {
    hide HashSeed, IsSwap;
    states, lists := TraceFrom(Defined(items), HashSeed(seed), |items| - 1);
  }

  lemma SwapPermutes<T>(xs: seq<Option<T>>, i: nat, j: nat)
    requires i < |xs| && j <= |xs|
    ensures multiset(Swap(xs, i, j)) == if j < |xs| then multiset(xs) else multiset(xs) + multiset{None}
  {
    if j == |xs| {
      assert multiset(xs[i := None]) == multiset(xs) - multiset{xs[i]} + multiset{None};
    }
  }

  /** From the second position on, even the largest draw stays inside the array. */
  lemma {:induction false} TailPermutes<T>(xs: seq<Option<T>>, state: nat, index: nat)
    requires IsState(state) && index + 1 < |xs|
    ensures multiset(ShuffleFrom(xs, state, index)) == multiset(xs)
    decreases index
  {
    if index > 0 {
      hide Next, SwapIndex, Swap;
      var drawn := Next(state);
      SwapIndexRange(drawn, index);
      SwapPermutes(xs, index, SwapIndex(drawn, index));
      TailPermutes(Swap(xs, index, SwapIndex(drawn, index)), drawn, index - 1);
    }
  }

  /** The largest first draw on two or more items adds an `undefined`; nothing else is lost or repeated. */
  lemma {:induction false} ShuffleContents<T>(items: seq<T>, seed: seq<CodeUnit>)
    ensures multiset(Shuffled(items, seed))
         == multiset(Defined(items))
             + (if |items| >= 2 && HashSeed(seed) == BAD_STATE then multiset{None} else multiset{})
  {
    if |items| >= 2 {
      var xs, index, drawn := Defined(items), |items| - 1, Next(HashSeed(seed));
      SwapIndexRange(drawn, index);
      SwapPermutes(xs, index, SwapIndex(drawn, index));
      OneBadState(HashSeed(seed));
      TailPermutes(Swap(xs, index, SwapIndex(drawn, index)), drawn, index - 1);
    }
  }

  /** The result is a permutation of the items exactly when that draw does not happen. */
  lemma ShuffleIsPermutationIff<T>(items: seq<T>, seed: seq<CodeUnit>)
    ensures multiset(Shuffled(items, seed)) == multiset(Defined(items))
       <==> !(|items| >= 2 && HashSeed(seed) == BAD_STATE)
  {
    ShuffleContents(items, seed);
    var all := multiset(Defined(items));
    assert (all + multiset{None})[None] == all[None] + 1;
  }

  /** Such a seed exists, four code units long. */
  lemma BadSeedExists()
    ensures var seed: seq<CodeUnit> := [21940, 23, 24, 21]; HashSeed(seed) == BAD_STATE
  {
    var seed: seq<CodeUnit> := [21940, 23, 24, 21];
    assert seed[..1][..0] == [] && seed[..2][..1] == seed[..1] && seed[..3][..2] == seed[..2];
    assert HashSeed(seed[..1]) == 21940;
    assert HashSeed(seed[..2]) == 21940 * 31 + 23;
    assert HashSeed(seed[..3]) == (21940 * 31 + 23) * 31 + 24;
  }
}
