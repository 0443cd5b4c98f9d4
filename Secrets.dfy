/** Monkey market secrets (2024/22): each buyer's secret number evolves by a
    xorshift step on 24 bits; prices are the secrets' last digits, and a buyer sells
    the first time the last four price changes match a sequence. Secrets, price
    changes and change sequences are u32 values, here 32-bit bit-vectors. */
module Secrets {
  import opened Common


  /** The first mixing step: xor with the secret times 64, pruned to 24 bits. */
  function MixA(x: bv32): bv32 {
    (x ^ (x << 6)) & 0xFF_FFFF
  }

  /** The second mixing step: xor with the secret divided by 32. */
  function MixB(x: bv32): bv32 {
    (x ^ (x >> 5)) & 0xFF_FFFF
  }

  /** The third mixing step: xor with the secret times 2048. */
  function MixC(x: bv32): bv32 {
    (x ^ (x << 11)) & 0xFF_FFFF
  }

  /** GetNextSecret: always a 24-bit value, and zero stays zero. */
  function NextSecret(secret: bv32): (r: bv32)
    ensures r <= 0xFF_FFFF
    ensures secret == 0 ==> r == 0
  {
    MixC(MixB(MixA(secret)))
  }

  /** Only the low 24 bits of a secret matter for the next one. */
  lemma NextSecretLowBits(secret: bv32)
    ensures NextSecret(secret) == NextSecret(secret & 0xFF_FFFF)
  {
    assert MixA(secret) == MixA(secret & 0xFF_FFFF);
  }

  // ---------------------------------------------------------------------------
  // One buyer's prices and price changes

  /** The secret after n steps. */
  function SecretAt(initial: bv32, n: nat): bv32 {
    if n == 0 then initial else NextSecret(SecretAt(initial, n - 1))
  }

  /** A secret's price: its last decimal digit. */
  function PriceOf(secret: bv32): (p: nat)
    ensures p < 10
  {
    (secret as int) % 10
  }

  /** The prices of the first n + 1 secrets. */
  function Prices(initial: bv32, n: nat): (ps: seq<nat>)
    ensures |ps| == n + 1 && Digits(ps)
  {
    if n == 0 then [PriceOf(initial)] else Prices(initial, n - 1) + [PriceOf(SecretAt(initial, n))]
  }

  /** Price j of the list is the last digit of secret j. */
  lemma {:induction false} PricesAt(initial: bv32, n: nat, j: nat)
    requires j <= n
    ensures Prices(initial, n)[j] == PriceOf(SecretAt(initial, j))
    decreases n
  {
    if j < n {
      PricesAt(initial, n - 1, j);
    }
  }

  /** ps lists the prices of initial's first |ps| secrets. */
  ghost predicate PriceList(initial: bv32, ps: seq<nat>) {
    forall j :: 0 <= j < |ps| ==> ps[j] == PriceOf(SecretAt(initial, j))
  }

  /** Prices is such a list. */
  lemma PricesArePrices(initial: bv32, n: nat)
    ensures PriceList(initial, Prices(initial, n))
  {
    forall j | 0 <= j <= n
      ensures Prices(initial, n)[j] == PriceOf(SecretAt(initial, j))
    {
      PricesAt(initial, n, j);
    }
  }

  /** Prices are digits. */
  lemma PriceListDigits(initial: bv32, ps: seq<nat>)
    requires PriceList(initial, ps)
    ensures Digits(ps)
  {
    forall j | 0 <= j < |ps|
      ensures ps[j] < 10
    {
      assert ps[j] == PriceOf(SecretAt(initial, j));
    }
  }

  predicate Digits(ps: seq<nat>) {
    forall j :: 0 <= j < |ps| ==> ps[j] < 10
  }

  /** The change of price at step n, plus 9, in u32 arithmetic. */
  function Diff(ps: seq<nat>, n: nat): (r: nat)
    requires 1 <= n < |ps|
    ensures r < TWO_32
  {
    Wrap32(ps[n] as int - ps[n - 1] + 9)
  }

  /** The shifted change lies in [0, 18], so fits in five bits, and it is the price
      change plus 9 exactly: the u32 wrap-around of the subtraction cancels. */
  lemma DiffRange(ps: seq<nat>, n: nat)
    requires Digits(ps) && 1 <= n < |ps|
    ensures Diff(ps, n) <= 18 && Diff(ps, n) == ps[n] as int - ps[n - 1] + 9
  {
  }

  /** The last four changes at step n, packed five bits each, the oldest highest. */
  function Window(ps: seq<nat>, n: nat): nat
    requires 4 <= n < |ps|
  {
    ((Diff(ps, n - 3) * 32 + Diff(ps, n - 2)) * 32 + Diff(ps, n - 1)) * 32 + Diff(ps, n)
  }

  /** A window indexes the seen and bought tables, which have 0xFFFFF entries, and
      it encodes the four changes: each can be read back from its five bits. */
  lemma WindowBounds(ps: seq<nat>, n: nat)
    requires Digits(ps) && 4 <= n < |ps|
    ensures Window(ps, n) < 0xF_FFFF
    ensures Window(ps, n) / 32768 == Diff(ps, n - 3) && (Window(ps, n) / 1024) % 32 == Diff(ps, n - 2)
    ensures (Window(ps, n) / 32) % 32 == Diff(ps, n - 1) && Window(ps, n) % 32 == Diff(ps, n)
  {
    DiffRange(ps, n - 3);
    DiffRange(ps, n - 2);
    DiffRange(ps, n - 1);
    DiffRange(ps, n);
    Unpack(Diff(ps, n - 3), Diff(ps, n - 2), Diff(ps, n - 1), Diff(ps, n));
  }

  lemma Unpack(a: nat, b: nat, c: nat, d: nat)
    requires a <= 18 && b <= 18 && c <= 18 && d <= 18
    ensures ((a * 32 + b) * 32 + c) * 32 + d < 0xF_FFFF
    ensures (((a * 32 + b) * 32 + c) * 32 + d) / 32768 == a
    ensures ((((a * 32 + b) * 32 + c) * 32 + d) / 1024) % 32 == b
    ensures ((((a * 32 + b) * 32 + c) * 32 + d) / 32) % 32 == c
    ensures (((a * 32 + b) * 32 + c) * 32 + d) % 32 == d
  {
    var w := ((a * 32 + b) * 32 + c) * 32 + d;
    DivModUnique(w, 32768, a, (b * 32 + c) * 32 + d);
    DivModUnique(w, 1024, a * 32 + b, c * 32 + d);
    DivModUnique(a * 32 + b, 32, a, b);
    DivModUnique(w, 32, (a * 32 + b) * 32 + c, d);
    DivModUnique((a * 32 + b) * 32 + c, 32, a * 32 + b, c);
  }

  /** diff_seq after n steps from start: shifted left five bits in a u32 with the
      change put into the freed low five bits, masked to its low 20 bits (& 0xFFFFF)
      from the fourth step on. The solver or-s the change in; since those bits are
      clear this adds it (ShiftIn). */
  function Acc(ps: seq<nat>, start: nat, n: nat): nat
    requires n < |ps|
  {
    if n == 0 then start
    else
      var y := Wrap32(Acc(ps, start, n - 1) * 32) + Diff(ps, n);
      if n >= 4 then y % 0x10_0000 else y
  }

  /** One step of diff_seq, from the previous value and the two prices, as the
      solver computes it. */
  lemma AccNext(ps: seq<nat>, start: nat, n: nat, prev: nat, oldPrice: int, price: int)
    requires Digits(ps) && 1 <= n < |ps| && prev == Acc(ps, start, n - 1) && oldPrice == ps[n - 1] && price == ps[n]
    ensures Diff(ps, n) == Wrap32(price - oldPrice + 9)
    ensures Acc(ps, start, n) == if n >= 4 then BitOr(Wrap32(prev * 32), Wrap32(price - oldPrice + 9)) % 0x10_0000
                                 else BitOr(Wrap32(prev * 32), Wrap32(price - oldPrice + 9))
  {
    DiffRange(ps, n);
    ShiftIn(prev, Diff(ps, n));
  }

  /** From the fourth step on, diff_seq is the window of the last four changes,
      whatever it held before (the previous buyer's changes are shifted out), and so
      is a valid index into the tables. */
  lemma AccIsWindow(ps: seq<nat>, start: nat, n: nat)
    requires Digits(ps) && 4 <= n < |ps|
    ensures Acc(ps, start, n) == Window(ps, n) < 0xF_FFFF
  {
    AccLow(ps, start, n);
    WindowBounds(ps, n);
  }

  /** Shifting left by five bits in a u32 and or-ing in e adds e, and the low bits
      of the result are the low bits of the old value, moved up, and e. */
  lemma ShiftIn(x: nat, e: nat)
    requires e < 32
    ensures BitOr(Wrap32(x * 32), e) == Wrap32(x * 32) + e
    ensures (Wrap32(x * 32) + e) % 32 == e
    ensures (Wrap32(x * 32) + e) % 1024 == (x % 32) * 32 + e
    ensures (Wrap32(x * 32) + e) % 32768 == (x % 1024) * 32 + e
    ensures (Wrap32(x * 32) + e) % 0x10_0000 == (x % 32768) * 32 + e
  {
    var t := (x * 32) / TWO_32;
    var w := Wrap32(x * 32);
    assert w == x * 32 - TWO_32 * t;
    Shifted(x, t, w);
    OrLow5(w / 32, e);
    ShiftMod(x, t, w, e);
  }

  lemma Shifted(x: nat, t: int, w: nat)
    requires w == x * 32 - TWO_32 * t
    ensures w / 32 == x - 0x800_0000 * t && w % 32 == 0 && w == 32 * (w / 32)
  {
    DivModUnique(w, 32, x - 0x800_0000 * t, 0);
  }

  lemma ShiftMod(x: nat, t: int, w: nat, e: nat)
    requires e < 32 && w == x * 32 - TWO_32 * t
    ensures (w + e) % 32 == e
    ensures (w + e) % 1024 == (x % 32) * 32 + e
    ensures (w + e) % 32768 == (x % 1024) * 32 + e
    ensures (w + e) % 0x10_0000 == (x % 32768) * 32 + e
  {
    DivModUnique(w + e, 32, x - 0x800_0000 * t, e);
    DivModUnique(w + e, 1024, x / 32 - 0x40_0000 * t, (x % 32) * 32 + e);
    DivModUnique(w + e, 32768, x / 1024 - 0x2_0000 * t, (x % 1024) * 32 + e);
    DivModUnique(w + e, 0x10_0000, x / 32768 - 0x1000 * t, (x % 32768) * 32 + e);
  }

  /** Masking to 20 bits keeps the low 15. */
  lemma MaskKeepsLow(y: nat)
    ensures (y % 0x10_0000) % 32768 == y % 32768
    ensures (y % 0x10_0000) % 1024 == y % 1024
    ensures (y % 0x10_0000) % 32 == y % 32
  {
    var q := y / 0x10_0000;
    DivModUnique(y, 32768, 32 * q + (y % 0x10_0000) / 32768, (y % 0x10_0000) % 32768);
    DivModUnique(y, 1024, 1024 * q + (y % 0x10_0000) / 1024, (y % 0x10_0000) % 1024);
    DivModUnique(y, 32, 32768 * q + (y % 0x10_0000) / 32, (y % 0x10_0000) % 32);
  }

  /** The low five, ten and fifteen bits of diff_seq hold the last one, two and
      three changes. */
  lemma {:induction false} AccLow(ps: seq<nat>, start: nat, n: nat)
    requires Digits(ps) && 1 <= n < |ps|
    ensures Acc(ps, start, n) % 32 == Diff(ps, n)
    ensures n >= 2 ==> Acc(ps, start, n) % 1024 == Diff(ps, n - 1) * 32 + Diff(ps, n)
    ensures n >= 3 ==> Acc(ps, start, n) % 32768 == (Diff(ps, n - 2) * 32 + Diff(ps, n - 1)) * 32 + Diff(ps, n)
    ensures n >= 4 ==> Acc(ps, start, n) == Window(ps, n)
    decreases n
  {
    var x := Acc(ps, start, n - 1);
    var e := Diff(ps, n);
    DiffRange(ps, n);
    if n >= 2 {
      AccLow(ps, start, n - 1);
    }
    LowBits(Acc(ps, start, n), x, e, n >= 4);
    if n >= 4 {
      Regroup(Acc(ps, start, n), x % 32768, Diff(ps, n - 3), Diff(ps, n - 2), Diff(ps, n - 1), e);
    }
  }

  /** The low bits of one step of diff_seq, masked or not. */
  lemma LowBits(acc: nat, x: nat, e: nat, masked: bool)
    requires e < 32
    requires acc == if masked then (Wrap32(x * 32) + e) % 0x10_0000 else Wrap32(x * 32) + e
    ensures acc % 32 == e
    ensures acc % 1024 == (x % 32) * 32 + e
    ensures acc % 32768 == (x % 1024) * 32 + e
    ensures masked ==> acc == (x % 32768) * 32 + e
  {
    ShiftIn(x, e);
    MaskKeepsLow(Wrap32(x * 32) + e);
  }

  lemma Regroup(acc: int, low: int, a: int, b: int, c: int, d: int)
    requires acc == low * 32 + d && low == (a * 32 + b) * 32 + c
    ensures acc == ((a * 32 + b) * 32 + c) * 32 + d
  {
  }

  /** Whether the change window k occurs at some step from 4 to n. */
  predicate Seen(ps: seq<nat>, n: nat, k: int)
    requires n < |ps|
  {
    n >= 4 && (Seen(ps, n - 1, k) || Window(ps, n) == k)
  }

  /** What the buyer pays for window k over steps 4 .. n: the price at its first
      occurrence, or nothing. */
  function Gain(ps: seq<nat>, n: nat, k: int): nat
    requires n < |ps|
  {
    if n < 4 then 0
    else if !Seen(ps, n - 1, k) && Window(ps, n) == k then ps[n]
    else Gain(ps, n - 1, k)
  }

  /** Nothing is paid for a window not yet seen. */
  lemma {:induction false} UnseenGainsNothing(ps: seq<nat>, n: nat, k: int)
    requires n < |ps| && !Seen(ps, n, k)
    ensures Gain(ps, n, k) == 0
    decreases n
  {
    if n >= 4 {
      UnseenGainsNothing(ps, n - 1, k);
    }
  }

  /** Seen is occurrence at some step. */
  lemma {:induction false} SeenIsOccurrence(ps: seq<nat>, n: nat, k: int, j: nat)
    requires 4 <= j <= n < |ps| && Window(ps, j) == k
    ensures Seen(ps, n, k)
    decreases n
  {
    if j < n {
      SeenIsOccurrence(ps, n - 1, k, j);
    }
  }

  /** The gain is the price at the first step whose window is k. */
  lemma {:induction false} GainIsFirst(ps: seq<nat>, n: nat, k: int, j: nat)
    requires 4 <= j <= n < |ps| && Window(ps, j) == k
    requires forall i :: 4 <= i < j ==> Window(ps, i) != k
    ensures Gain(ps, n, k) == ps[j]
    decreases n
  {
    if j < n {
      GainIsFirst(ps, n - 1, k, j);
      SeenIsOccurrence(ps, n - 1, k, j);
    } else {
      NotSeenBefore(ps, j - 1, k);
    }
  }

  lemma {:induction false} NotSeenBefore(ps: seq<nat>, n: nat, k: int)
    requires n < |ps| && forall i :: 4 <= i <= n ==> Window(ps, i) != k
    ensures !Seen(ps, n, k)
    decreases n
  {
    if n >= 4 {
      NotSeenBefore(ps, n - 1, k);
    }
  }

  /** The seen and bought tables s and b after n steps of a buyer, from s0 and b0:
      exactly the windows seen so far are marked with the buyer, the others are as
      they were, and each window's u32 total has grown by its gain. */
  ghost predicate Tables(ps: seq<nat>, n: nat, buyer: nat, s: seq<nat>, b: seq<nat>, s0: seq<nat>, b0: seq<nat>)
    requires n < |ps|
  {
    |s| == |s0| && |b| == |b0| &&
    (forall k :: 0 <= k < |s| ==> (s[k] == buyer <==> Seen(ps, n, k)) && (!Seen(ps, n, k) ==> s[k] == s0[k])) &&
    (forall k :: 0 <= k < |b| ==> b[k] == Wrap32(b0[k] + Gain(ps, n, k)))
  }

  /** Tables that do not yet mark the buyer, with u32 totals, are the tables after no
      step. */
  lemma TablesStart(ps: seq<nat>, buyer: nat, s0: seq<nat>, b0: seq<nat>)
    requires |ps| >= 1
    requires forall k :: 0 <= k < |s0| ==> s0[k] != buyer
    requires forall k :: 0 <= k < |b0| ==> b0[k] < TWO_32
    ensures Tables(ps, 0, buyer, s0, b0, s0, b0)
  {
  }

  /** The first three steps change no table. */
  lemma TablesEarly(ps: seq<nat>, n: nat, buyer: nat, s: seq<nat>, b: seq<nat>, s0: seq<nat>, b0: seq<nat>)
    requires n + 1 < |ps| && n < 3 && Tables(ps, n, buyer, s, b, s0, b0)
    ensures Tables(ps, n + 1, buyer, s, b, s0, b0)
  {
  }

  /** A window the buyer has already marked changes no table. */
  lemma TablesSeen(ps: seq<nat>, n: nat, buyer: nat, s: seq<nat>, b: seq<nat>, s0: seq<nat>, b0: seq<nat>)
    requires 3 <= n && n + 1 < |ps| && Tables(ps, n, buyer, s, b, s0, b0)
    requires Window(ps, n + 1) < |s| && s[Window(ps, n + 1)] == buyer
    ensures Tables(ps, n + 1, buyer, s, b, s0, b0)
  {
    var w := Window(ps, n + 1);
    forall k | 0 <= k < |s|
      ensures (s[k] == buyer <==> Seen(ps, n + 1, k)) && (!Seen(ps, n + 1, k) ==> s[k] == s0[k])
    {
    }
    forall k | 0 <= k < |b|
      ensures b[k] == Wrap32(b0[k] + Gain(ps, n + 1, k))
    {
      if k == w {
        assert Seen(ps, n, k);
      }
    }
  }

  /** A window the buyer has not marked yet is marked, and its total gains the
      price. */
  lemma TablesMark(ps: seq<nat>, n: nat, buyer: nat, s: seq<nat>, b: seq<nat>, s0: seq<nat>, b0: seq<nat>,
                   w: nat, price: nat, before: nat, total: nat)
    requires 3 <= n && n + 1 < |ps| && Tables(ps, n, buyer, s, b, s0, b0)
    requires forall k :: 0 <= k < |b0| ==> b0[k] < TWO_32
    requires w == Window(ps, n + 1) && w < |s| && w < |b| && s[w] != buyer
    requires price == ps[n + 1] && before == b[w] && total == Wrap32(before + price)
    ensures Tables(ps, n + 1, buyer, s[w := buyer], b[w := total], s0, b0)
  {
    MarkSeen(ps, n, buyer, s, s0, w);
    MarkBought(ps, n, buyer, s, b, s0, b0, w, price, before, total);
  }

  lemma MarkSeen(ps: seq<nat>, n: nat, buyer: nat, s: seq<nat>, s0: seq<nat>, w: nat)
    requires 3 <= n && n + 1 < |ps| && w == Window(ps, n + 1) && w < |s| == |s0|
    requires forall k :: 0 <= k < |s| ==> (s[k] == buyer <==> Seen(ps, n, k)) && (!Seen(ps, n, k) ==> s[k] == s0[k])
    ensures forall k :: 0 <= k < |s| ==>
      (s[w := buyer][k] == buyer <==> Seen(ps, n + 1, k)) && (!Seen(ps, n + 1, k) ==> s[w := buyer][k] == s0[k])
  {
    var s' := s[w := buyer];
    forall k: int | 0 <= k < |s|
      ensures (s'[k] == buyer <==> Seen(ps, n + 1, k)) && (!Seen(ps, n + 1, k) ==> s'[k] == s0[k])
    {
      assert Seen(ps, n + 1, k) <==> Seen(ps, n, k) || k == w;
    }
  }

  lemma MarkBought(ps: seq<nat>, n: nat, buyer: nat, s: seq<nat>, b: seq<nat>, s0: seq<nat>, b0: seq<nat>,
                   w: nat, price: nat, before: nat, total: nat)
    requires 3 <= n && n + 1 < |ps| && w == Window(ps, n + 1) && w < |s| && w < |b| == |b0|
    requires forall k :: 0 <= k < |b0| ==> b0[k] < TWO_32
    requires s[w] != buyer && (s[w] == buyer <==> Seen(ps, n, w))
    requires forall k :: 0 <= k < |b| ==> b[k] == Wrap32(b0[k] + Gain(ps, n, k))
    requires price == ps[n + 1] && before == b[w] && total == Wrap32(before + price)
    ensures forall k :: 0 <= k < |b| ==> b[w := total][k] == Wrap32(b0[k] + Gain(ps, n + 1, k))
  {
    UnseenGainsNothing(ps, n, w);
    assert before == b0[w];
    assert Gain(ps, n + 1, w) == price;
  }

  /** The table update for the window w at step n + 1: unless the buyer has marked
      w already, mark it and add the price to its u32 total. The tables go from
      their state after n steps to their state after n + 1. */
  method Record(ghost ps: seq<nat>, ghost n: nat, buyer: nat, w: nat, price: nat, seen: array<nat>, bought: array<nat>,
                ghost s0: seq<nat>, ghost b0: seq<nat>)
    requires seen != bought && 3 <= n && n + 1 < |ps| && w == Window(ps, n + 1) && price == ps[n + 1]
    requires w < seen.Length && w < bought.Length && Tables(ps, n, buyer, seen[..], bought[..], s0, b0)
    requires forall k :: 0 <= k < |b0| ==> b0[k] < TWO_32
    modifies seen, bought
    ensures Tables(ps, n + 1, buyer, seen[..], bought[..], s0, b0)
  {
    if seen[w] == buyer {
      TablesSeen(ps, n, buyer, seen[..], bought[..], s0, b0);
      return;
    }
    ghost var s1, b1 := seen[..], bought[..];
    var total := Wrap32(bought[w] + price);
    TablesMark(ps, n, buyer, s1, b1, s0, b0, w, price, bought[w], total);
    seen[w] := buyer;
    bought[w] := total;
    assert seen[..] == s1[w := buyer];
    assert bought[..] == b1[w := total];
  }

  /** The number of secrets each buyer generates. */
  const STEPS: nat := 2000

  /** Step i + 1 of a buyer after its secret: the price change goes into diff_seq,
      which from the fourth step on is masked to the window of the last four changes
      and recorded in the tables. */
  method Track(ghost ps: seq<nat>, ghost start: nat, i: nat, buyer: nat, diffSeq: nat, oldPrice: nat, price: nat,
               seen: array<nat>, bought: array<nat>, ghost s0: seq<nat>, ghost b0: seq<nat>)
    returns (diffSeq': nat)
    requires Digits(ps) && i + 1 < |ps| && diffSeq == Acc(ps, start, i) && oldPrice == ps[i] && price == ps[i + 1]
    requires seen != bought && seen.Length == 0xF_FFFF && bought.Length == 0xF_FFFF
    requires forall k :: 0 <= k < |b0| ==> b0[k] < TWO_32
    requires Tables(ps, i, buyer, seen[..], bought[..], s0, b0)
    modifies seen, bought
    ensures diffSeq' == Acc(ps, start, i + 1)
    ensures Tables(ps, i + 1, buyer, seen[..], bought[..], s0, b0)
  {
    var priceDiff := Wrap32(price as int - oldPrice + 9);
    AccNext(ps, start, i + 1, diffSeq, oldPrice, price);
    diffSeq' := Wrap32(diffSeq * 32);
    diffSeq' := BitOr(diffSeq', priceDiff);
    if i < 3 {
      TablesEarly(ps, i, buyer, seen[..], bought[..], s0, b0);
      return;
    }
    diffSeq' := diffSeq' % 0x10_0000;
    AccIsWindow(ps, start, i + 1);
    Record(ps, i, buyer, diffSeq', price, seen, bought, s0, b0);
  }

  /** The inner loop of the solver for one buyer: generates the secrets, keeps the
      change window in diff_seq, and for each window seen for the first time marks it
      seen by this buyer and adds the price to its u32 total. Returns the last
      secret and diff_seq. ps is the list of the buyer's prices. */
  method Buyer(buyer: nat, initial: bv32, start: nat, seen: array<nat>, bought: array<nat>, ghost ps: seq<nat>)
    returns (secret: bv32, diffSeq: nat)
    requires seen != bought && seen.Length == 0xF_FFFF && bought.Length == 0xF_FFFF
    requires forall k :: 0 <= k < seen.Length ==> seen[k] != buyer
    requires forall k :: 0 <= k < bought.Length ==> bought[k] < TWO_32
    requires |ps| == STEPS + 1 && PriceList(initial, ps)
    modifies seen, bought
    ensures secret == SecretAt(initial, STEPS) && diffSeq == Acc(ps, start, STEPS)
    ensures Tables(ps, STEPS, buyer, seen[..], bought[..], old(seen[..]), old(bought[..]))
  {
    PriceListDigits(initial, ps);
    secret := initial;
    diffSeq := start;
    var oldPrice := PriceOf(secret);
    ghost var s0, b0 := seen[..], bought[..];
    TablesStart(ps, buyer, s0, b0);
    var i := 0;
    while i < STEPS
      invariant 0 <= i <= STEPS
      invariant secret == SecretAt(initial, i) && oldPrice == ps[i]
      invariant diffSeq == Acc(ps, start, i)
      invariant Tables(ps, i, buyer, seen[..], bought[..], s0, b0)
    {
      secret := NextSecret(secret);
      var price := PriceOf(secret);
      diffSeq := Track(ps, start, i, buyer, diffSeq, oldPrice, price, seen, bought, s0, b0);
      oldPrice := price;
      i := i + 1;
    }
  }
}
