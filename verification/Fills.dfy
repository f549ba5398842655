/**
 mp_writer::fill: what its loop appends, and when it ends. Undeclared items are counted, and the counter
 wraps at 2^32, so the loop may pass its target for ever.
 */
module Fills {
  import opened Bytes
  import opened MsgPack
  import opened Options
  import opened Writer

  // --- powers of two --------------------------------------------------------------------------

  function Pow2(e: nat): (p: nat)
    ensures p > 0
  {
    if e == 0 then 1 else 2 * Pow2(e - 1)
  }

  lemma CounterWidth()
    ensures Pow2(32) == U32
  {
    assert Pow2(8) == 256;
    assert Pow2(16) == 256 * Pow2(8) by { Doubled(8); }
    assert Pow2(24) == 256 * Pow2(16) by { Doubled(16); }
    assert Pow2(32) == 256 * Pow2(24) by { Doubled(24); }
  }

  lemma Doubled(e: nat)
    ensures Pow2(e + 8) == 256 * Pow2(e)
  {
    assert Pow2(e + 1) == 2 * Pow2(e) && Pow2(e + 2) == 2 * Pow2(e + 1);
    assert Pow2(e + 3) == 2 * Pow2(e + 2) && Pow2(e + 4) == 2 * Pow2(e + 3);
    assert Pow2(e + 5) == 2 * Pow2(e + 4) && Pow2(e + 6) == 2 * Pow2(e + 5);
    assert Pow2(e + 7) == 2 * Pow2(e + 6) && Pow2(e + 8) == 2 * Pow2(e + 7);
  }

  /** The largest power of two that divides k, up to 2^e. */
  function Grain(k: nat, e: nat): (g: nat)
    ensures g > 0
  {
    if e == 0 || k % 2 == 1 then 1 else 2 * Grain(k / 2, e - 1)
  }

  /** It divides both, and is no larger than a k that is not zero. */
  lemma {:induction false} GrainDivides(k: nat, e: nat) returns (a: nat, b: nat)
    ensures k == a * Grain(k, e) && Pow2(e) == b * Grain(k, e) && b > 0
    ensures k > 0 ==> Grain(k, e) <= k
  {
    if e == 0 || k % 2 == 1 {
      a, b := k, Pow2(e);
    } else {
      var a', b' := GrainDivides(k / 2, e - 1);
      a, b := a', b';
      var g := Grain(k / 2, e - 1);
      assert k == 2 * (a * g) && a * (2 * g) == 2 * (a * g);
      assert Pow2(e) == 2 * (b * g) && b * (2 * g) == 2 * (b * g);
    }
  }

  /** Adding k again and again to n, modulo 2^e, reaches every number that differs from n by a multiple of
      the grain. */
  lemma {:induction false} Reach(n: nat, k: nat, e: nat, r: nat, d: int) returns (j: nat, q: int)
    requires r < Pow2(e) && n - r == d * Grain(k, e)
    ensures n + j * k == q * Pow2(e) + r
    decreases e
  {
    if e == 0 {
      j, q := 0, n;
    } else if k % 2 == 1 {
      j, q := ReachOdd(n, k, e, r);
    } else {
      j, q := ReachEven(n, k, e, r, d);
    }
  }

  lemma {:induction false} ReachOdd(n: nat, k: nat, e: nat, r: nat) returns (j: nat, q: int)
    requires e > 0 && k % 2 == 1 && r < Pow2(e)
    ensures n + j * k == q * Pow2(e) + r
    decreases e, 0
  {
    var half := Pow2(e - 1);
    var bit := if r >= half then 1 else 0;
    var j0, q0 := Reach(n, k, e - 1, r - bit * half, n - (r - bit * half));
    var u := q0 - bit;
    hide Grain, Pow2;
    if u % 2 == 0 {
      j, q := j0, u / 2;
    } else {
      j, q := j0 + half, (u + k) / 2;
    }
    OddStep(n, k, j0, q0, bit, half, r);
  }

  /** Half a turn later the count is half a turn further, as k is odd. */
  lemma OddStep(n: int, k: int, j: int, q: int, bit: int, half: int, r: int)
    requires n + j * k == q * half + (r - bit * half) && k % 2 == 1
    ensures var u := q - bit;
            if u % 2 == 0 then n + j * k == u / 2 * (2 * half) + r
            else n + (j + half) * k == (u + k) / 2 * (2 * half) + r
  {
    var u := q - bit;
    Distributes(q, bit, half);
    if u % 2 == 0 {
      Twice(u / 2, half);
    } else {
      Twice((u + k) / 2, half);
      Distributes(u, -k, half);
      Distributes(j, -half, k);
    }
  }

  lemma Twice(q: int, half: int)
    ensures q * (2 * half) == (2 * q) * half
  {
  }

  lemma {:induction false} ReachEven(n: nat, k: nat, e: nat, r: nat, d: int) returns (j: nat, q: int)
    requires e > 0 && k % 2 == 0 && r < Pow2(e) && n - r == d * Grain(k, e)
    ensures n + j * k == q * Pow2(e) + r
    decreases e, 0
  {
    var g := Grain(k / 2, e - 1);
    Twice(d, g);
    assert n - r == 2 * (d * g) by { Halved(d, g); }
    assert n % 2 == r % 2;
    j, q := Reach(n / 2, k / 2, e - 1, r / 2, d);
    assert j * k == 2 * (j * (k / 2)) by { Halved(j, k / 2); }
    assert q * Pow2(e) == 2 * (q * Pow2(e - 1)) by { Halved(q, Pow2(e - 1)); }
  }

  lemma Halved(a: int, b: int)
    ensures a * (2 * b) == 2 * (a * b)
  {
  }

  // --- counts ---------------------------------------------------------------------------------

  /** The count after j copies of k items. */
  function Total(n: u32, k: nat, j: nat): u32 {
    (n + j * k) % U32
  }

  /** The largest count there is. */
  function Peak(n: u32, k: nat): int {
    U32 - Grain(k, 32) + n % Grain(k, 32)
  }

  lemma PeakReached(n: u32, k: nat) returns (j: nat)
    ensures 0 <= Peak(n, k) < U32 && Total(n, k, j) == Peak(n, k)
  {
    CounterWidth();
    var a, b := GrainDivides(k, 32);
    var g := Grain(k, 32);
    hide Grain, Pow2, Total;
    PeakDiffers(n, b, g);
    var r := Peak(n, k);
    hide Peak;
    var q;
    j, q := Reach(n, k, 32, r, n / g - (b - 1));
    TotalIs(n, k, j, q, r);
  }

  lemma TotalIs(n: u32, k: nat, j: nat, q: int, r: nat)
    requires n + j * k == q * U32 + r && r < U32
    ensures Total(n, k, j) == r
  {
    Remainder(n + j * k, q, r);
  }

  lemma PeakDiffers(n: nat, b: nat, g: nat)
    requires g > 0 && b > 0 && U32 == b * g
    ensures 0 <= U32 - g + n % g < U32
    ensures n - (U32 - g + n % g) == (n / g - (b - 1)) * g
  {
    Divided(n, g);
    Distributes(n / g, b - 1, g);
    Distributes(b, 1, g);
    Monotonic(1, b, g);
  }

  lemma Divided(n: nat, g: nat)
    requires g > 0
    ensures n == (n / g) * g + n % g
  {
  }

  lemma Distributes(a: int, b: int, g: int)
    ensures a * g - b * g == (a - b) * g
  {
  }

  lemma Remainder(x: nat, q: int, r: nat)
    requires x == q * U32 + r && r < U32
    ensures x % U32 == r
  {
  }

  lemma PeakIsHighest(n: u32, k: nat, j: nat)
    ensures Total(n, k, j) <= Peak(n, k)
  {
    CounterWidth();
    var a, b := GrainDivides(k, 32);
    var g := Grain(k, 32);
    hide Grain, Pow2;
    BelowPeak(n, a, b, g, j, n + j * k);
  }

  lemma BelowPeak(n: nat, a: nat, b: nat, g: nat, j: nat, x: nat)
    requires g > 0 && U32 == b * g && x == n + j * (a * g)
    ensures x % U32 <= U32 - g + n % g
  {
    Divided(x, U32);
    Divided(n, g);
    Grains(n / g, a, j, x / U32, b, g);
    BelowLast(n / g + j * a - (x / U32) * b, b, g, n % g);
  }

  lemma Grains(p: int, a: int, j: int, q: int, b: int, g: int)
    ensures p * g + j * (a * g) - q * (b * g) == (p + j * a - q * b) * g
  {
    Regroup(j, a, g);
    Regroup(q, b, g);
    Distributes(p, -(j * a), g);
    Distributes(p + j * a, q * b, g);
    assert -(j * a) * g == -((j * a) * g);
  }

  lemma Regroup(a: int, b: int, g: int)
    ensures a * (b * g) == (a * b) * g
  {
  }

  lemma BelowLast(c: int, b: int, g: nat, s: nat)
    requires c * g + s < b * g && s < g
    ensures c * g + s <= b * g - g + s
  {
    Monotonic(b, c, g);
    Monotonic(c, b - 1, g);
    Distributes(b, 1, g);
  }

  lemma Monotonic(a: int, b: int, g: nat)
    ensures a <= b ==> a * g <= b * g
  {
  }

  // --- the loop -------------------------------------------------------------------------------

  function Repeat(s: bytes, n: nat): bytes {
    if n == 0 then [] else s + Repeat(s, n - 1)
  }

  /** What one copy adds to the count; items whose number is not declared are counted. */
  function Stride(item: bytes, card: nat): nat {
    if card > 0 || ItemsOf(item).Bad? then card else |ItemsOf(item).items|
  }

  /** The loop makes another copy at the count x. */
  predicate GoesOn(x: u32, card: nat, target: u32) {
    x < target && x + card <= target
  }

  /** The writer after j copies. */
  function Copied(w: State, item: bytes, stride: nat, j: nat): State
    requires w.stack != []
  {
    var k := |w.stack| - 1;
    State(w.buf + Repeat(item, j), w.stack[..k] + [w.stack[k].(items := Total(w.stack[k].items, stride, j))])
  }

  /** What fill appends is copies of the item, each adding its items to the innermost count, modulo 2^32;
      nothing else of the stack changes. Every copy is made at a count below the target that it does not
      take past it as far as its number is declared; the loop is done at the first count where this fails.
      It throws only on undeclared items that are none. */
  lemma {:induction false} FillReachesTarget(w: State, item: bytes, card: nat, target: u32, rounds: nat)
    returns (copies: nat)
    requires w.stack != []
    ensures var n := w.stack[|w.stack| - 1].items;
            var st := Stride(item, card);
            var f := Fill(w, item, card, target, rounds);
            copies <= rounds &&
            if f.outcome.Some? && f.outcome.value != Done then
              f.outcome == Some(BadItems) && card == 0 && ItemsOf(item).Bad? && GoesOn(n, card, target) &&
              f.state == State(w.buf + item, w.stack)
            else
              f.state == Copied(w, item, st, copies) &&
              (forall i: nat | i < copies :: GoesOn(Total(n, st, i), card, target)) &&
              if f.outcome.None? then copies == rounds && GoesOn(Total(n, st, copies), card, target)
              else !GoesOn(Total(n, st, copies), card, target)
    decreases rounds
  {
    hide ItemsOf, Put, Fill, Stride, Copied;
    var n, st := w.stack[|w.stack| - 1].items, Stride(item, card);
    FillUnfolds(w, item, card, target, rounds);
    PutCopies(w, item, card);
    NothingCopied(w, item, st);
    copies := 0;
    if GoesOn(n, card, target) && rounds > 0 && Put(w, item, card).outcome == Done {
      var w1 := Put(w, item, card).state;
      copies := FillReachesTarget(w1, item, card, target, rounds - 1);
      CopiedAgain(w, item, st, copies);
      forall i: nat ensures Total(Total(n, st, 1), st, i) == Total(n, st, i + 1) { TotalAgain(n, st, i); }
      assert forall i: nat | 0 < i <= copies :: Total(Total(n, st, 1), st, i - 1) == Total(n, st, i);
      copies := copies + 1;
    }
  }

  lemma FillUnfolds(w: State, item: bytes, card: nat, target: u32, rounds: nat)
    requires w.stack != []
    ensures var n := w.stack[|w.stack| - 1].items;
            var r := Put(w, item, card);
            r.state.stack != [] &&
            Fill(w, item, card, target, rounds) ==
              if !GoesOn(n, card, target) then Filled(w, Some(Done))
              else if rounds == 0 then Filled(w, None)
              else if r.outcome != Done then Filled(r.state, Some(r.outcome))
              else Fill(r.state, item, card, target, rounds - 1)
  {
    hide ItemsOf;
  }

  lemma PutCopies(w: State, item: bytes, card: nat)
    requires w.stack != []
    ensures var r := Put(w, item, card);
            if card == 0 && ItemsOf(item).Bad? then r == Result(State(w.buf + item, w.stack), BadItems)
            else r == Result(Copied(w, item, Stride(item, card), 1), Done)
  {
    hide ItemsOf;
    assert Repeat(item, 0) == [] && item + [] == item;
  }

  lemma NothingCopied(w: State, item: bytes, stride: nat)
    requires w.stack != []
    ensures var n := w.stack[|w.stack| - 1].items; Copied(w, item, stride, 0) == w && Total(n, stride, 0) == n
  {
    assert w.buf + [] == w.buf;
    var k := |w.stack| - 1;
    assert w.stack[..k] + [w.stack[k]] == w.stack;
  }

  lemma CopiedAgain(w: State, item: bytes, stride: nat, j: nat)
    requires w.stack != []
    ensures var v := Copied(w, item, stride, 1);
            v.stack != [] && v.stack[|v.stack| - 1].items == Total(w.stack[|w.stack| - 1].items, stride, 1) &&
            Copied(v, item, stride, j) == Copied(w, item, stride, j + 1)
  {
    var k := |w.stack| - 1;
    TotalAgain(w.stack[k].items, stride, j);
    assert Repeat(item, 1) == item + [] == item;
    assert w.buf + item + Repeat(item, j) == w.buf + Repeat(item, j + 1);
    hide Total, Repeat;
    assert Copied(w, item, stride, 1).stack[..k] == w.stack[..k];
  }

  lemma TotalAgain(n: u32, k: nat, j: nat)
    ensures Total(Total(n, k, 1), k, j) == Total(n, k, j + 1)
  {
    TotalOne(n, k);
    var jk := j * k;
    ModAdd(n + k, jk);
    Distributes(j, -1, k);
  }

  lemma TotalOne(n: u32, k: nat)
    ensures Total(n, k, 1) == (n + k) % U32
  {
  }

  // --- when it ends ---------------------------------------------------------------------------

  /** What a caller can check: the number of items is declared, or they are none, or the count has reached
      the target, or the highest count it can come to has. */
  predicate Ends(n: u32, item: bytes, card: nat, target: u32) {
    n >= target || card > 0 || ItemsOf(item).Bad? || Peak(n, |ItemsOf(item).items|) >= target
  }

  /** The loop of fill ends exactly then. */
  lemma FillEnds(w: State, item: bytes, card: nat, target: u32)
    requires w.stack != []
    ensures (exists rounds: nat :: Fill(w, item, card, target, rounds).outcome.Some?) <==>
            Ends(w.stack[|w.stack| - 1].items, item, card, target)
  {
    hide ItemsOf, Fill, Peak, Total;
    var n, st := w.stack[|w.stack| - 1].items, Stride(item, card);
    forall rounds: nat | Fill(w, item, card, target, rounds).outcome.Some? ensures Ends(n, item, card, target) {
      var copies := FillReachesTarget(w, item, card, target, rounds);
      PeakIsHighest(n, st, copies);
    }
    if Ends(n, item, card, target) {
      if card == 0 && ItemsOf(item).Bad? {
        FillUnfolds(w, item, card, target, 1);
        PutCopies(w, item, card);
      } else {
        var j := StopsAt(n, item, card, target);
        var copies := FillReachesTarget(w, item, card, target, j);
      }
    }
  }

  /** After so many copies there is no other. */
  lemma StopsAt(n: u32, item: bytes, card: nat, target: u32) returns (j: nat)
    requires Ends(n, item, card, target) && (card > 0 || ItemsOf(item).Good?)
    ensures !GoesOn(Total(n, Stride(item, card), j), card, target)
  {
    hide ItemsOf, Peak, Total;
    if n >= target {
      j := 0;
      NoneAdded(n, Stride(item, card));
    } else if card > 0 {
      if forall i: nat | i <= target :: GoesOn(Total(n, card, i), card, target) {
        NeverWraps(n, card, target, target);
        assert false;
      }
      j :| j <= target && !GoesOn(Total(n, card, j), card, target);
    } else {
      j := PeakReached(n, |ItemsOf(item).items|);
    }
  }

  lemma NoneAdded(n: u32, k: nat)
    ensures Total(n, k, 0) == n
  {
  }

  lemma {:induction false} NeverWraps(n: u32, card: nat, target: u32, j: nat)
    requires card > 0 && forall i: nat | i <= j :: GoesOn(Total(n, card, i), card, target)
    ensures Total(n, card, j) >= j
  {
    if j > 0 {
      NeverWraps(n, card, target, j - 1);
      OneMore(n, card, j - 1);
    }
  }

  lemma OneMore(n: u32, k: nat, j: nat)
    ensures Total(n, k, j + 1) == (Total(n, k, j) + k) % U32
  {
    Distributes(j, -1, k);
    ModAdd(n + j * k, k);
  }

  lemma ModAdd(a: nat, k: nat)
    ensures (a % U32 + k) % U32 == (a + k) % U32
  {
  }

  /** An empty view: the loop ends only where it does nothing. */
  lemma EmptyNeverEnds(n: u32, target: u32)
    ensures Ends(n, [], 0, target) <==> n >= target
  {
    CounterWidth();
    NothingHasAllGrains(32);
  }

  lemma {:induction false} NothingHasAllGrains(e: nat)
    ensures Grain(0, e) == Pow2(e)
  {
    if e > 0 { NothingHasAllGrains(e - 1); }
  }

  /** Undeclared items end it when they are shorter than what is left above the target. */
  lemma ShortItemsEnd(n: u32, item: bytes, target: u32)
    requires item != [] && |item| <= U32 - target
    ensures Ends(n, item, 0, target)
  {
    hide ItemsOf;
    ItemsFewerThanBytes(item);
    if ItemsOf(item).Good? { var a, b := GrainDivides(|ItemsOf(item).items|, 32); }
  }

  lemma {:induction false} ItemsFewerThanBytes(s: bytes)
    ensures ItemsOf(s).Good? ==> |ItemsOf(s).items| <= |s| && (s != [] ==> ItemsOf(s).items != [])
    decreases |s|
  {
    if s != [] && Parse(s, 1).Good? {
      hide Parse;
      ItemsFewerThanBytes(Parse(s, 1).rest);
    }
  }

  /** An open array, an empty view whose cardinality is not declared, and five items wanted: the loop goes
      round for ever and changes nothing. */
  lemma {:induction false} FillForever(rounds: nat)
    ensures var w := State([0x95], [Meta(0, 5, 0)]);
            Fill(w, [], 0, 5, rounds) == Filled(w, None)
  {
    var w := State([0x95], [Meta(0, 5, 0)]);
    assert Put(w, [], 0) == Result(w, Done) by { assert [0x95] + [] == [0x95]; }
    if rounds > 0 { FillForever(rounds - 1); }
  }
}
