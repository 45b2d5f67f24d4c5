// The label encoder of libuv (src/idna.c), from decoded code points on.
// Unsigned variables are 32 bits wide: every assignment to one is checked to
// stay in range, so no arithmetic below wraps.

module Idna {
  import opened Coding
  import opened Wrappers
  import opened Punycode

  const UV_EINVAL: int := -22
  const UV_E2BIG: int := -7

  // The output area from *d to de.  Characters that do not fit are dropped:
  // `full` is everything that was to be written.
  class Output {
    const room: nat
    var text: seq<char>
    ghost var full: seq<char>

    constructor (room: nat)
      ensures Valid() && full == [] && this.room == room
    {
      this.room := room;
      text, full := [], [];
    }

    ghost predicate Valid()
      reads this
    {
      text == if |full| <= room then full else full[..room]
    }

    method Put(c: char)
      requires Valid()
      modifies this
      ensures Valid() && full == old(full) + [c]
    {
      if |text| < room {
        text := text + [c];
      }
      full := full + [c];
    }
  }

  predicate IsAscii(c: nat) { c < 128 }

  ghost predicate WellFormed(s: seq<uint32>) {
    forall c :: c in s ==> c < 0x11_0000
  }

  ghost function Basic(s: seq<uint32>): seq<nat> {
    Inserted(s, INITIAL_N, 0)
  }

  /* Variable-length integers. */

  // t = 1; if (k > bias) t = k - bias; if (t > 26) t = 26;
  method DigitThreshold(k: uint32, bias: uint32) returns (t: uint32)
    ensures t == Threshold(k, bias)
  {
    t := 1;
    if k > bias {
      t := k - bias;
    }
    if t > 26 {
      t := 26;
    }
  }

  // The weight position stays far below the 32-bit limit.
  ghost predicate PositionBound(k: nat, q: nat, delta: nat) {
    && (q >= 90 ==> k + q / 2 <= 36 + delta / 2)
    && k <= 36 + delta / 2 + (if q >= 9 then 0 else if q >= 1 then 36 else 72)
  }

  lemma PositionStep(k: nat, q: nat, delta: nat, d: nat, m: nat, t: nat)
    requires PositionBound(k, q, delta) && 1 <= t <= 26 && q == t + m + d * (36 - t)
    ensures PositionBound(k + 36, d, delta)
  {
    assert d * (36 - t) >= d * 10 by { ProductIsNat(d, 26 - t); assert d * (36 - t) == d * 10 + d * (26 - t); }
  }

  method WriteDelta(d: Output, delta: uint32, bias: uint32)
    requires d.Valid()
    modifies d
    ensures d.Valid() && d.full == old(d.full) + EncodeInteger(delta, BASE, bias)
  {
    hide Digit, PositionBound, EncodeInteger, QuotientAndRemainder, Threshold;
    var k: uint32 := 36;
    var q: uint32 := delta;
    PositionStart(delta);
    while true
      invariant d.Valid() && PositionBound(k, q, delta)
      invariant d.full + EncodeInteger(q, k, bias) == old(d.full) + EncodeInteger(delta, BASE, bias)
      decreases q
    {
      var t := DigitThreshold(k, bias);
      if q < t {
        EncodeLast(q, k, bias);
        break;
      }
      ghost var higher, m := WriteStep(k, q, delta, bias);
      var digit;
      digit, q := SplitDigit(q, t, higher, m);
      d.Put(Digit(digit));
      k := k + 36;
    }
    d.Put(Digit(q));
  }

  lemma PositionStart(delta: uint32)
    ensures PositionBound(36, delta, delta)
  {
  }

  lemma EncodeLast(q: nat, k: nat, bias: nat)
    requires q < Threshold(k, bias)
    ensures EncodeInteger(q, k, bias) == [Digit(q)]
  {
  }

  // x = q - t; y = 36 - t; q = x / y; t = t + x % y;
  method SplitDigit(q: uint32, t: uint32, ghost higher: nat, ghost m: nat) returns (digit: uint32, q': uint32)
    requires 1 <= t <= 26 && t <= q && QuotientAndRemainder(q - t, 36 - t, higher, m)
    ensures digit == t + m && q' == higher
  {
    var x := q - t;
    var y := 36 - t;
    q' := x / y;
    digit := t + x % y;
  }

  ghost predicate QuotientAndRemainder(x: nat, y: nat, d: nat, m: nat)
    requires y > 0
  {
    x / y == d && x % y == m && m < y && d <= x
  }

  // One turn of the digit loop.
  lemma WriteStep(k: nat, q: nat, delta: uint32, bias: nat) returns (d: nat, m: nat)
    requires q >= Threshold(k, bias) && PositionBound(k, q, delta)
    ensures var t := Threshold(k, bias);
      && QuotientAndRemainder(q - t, BASE - t, d, m) && d < q && t + m < BASE
      && EncodeInteger(q, k, bias) == [Digit(t + m)] + EncodeInteger(d, k + BASE, bias)
    ensures PositionBound(k + BASE, d, delta) && k + BASE < 0x1_0000_0000
  {
    hide PositionBound, EncodeInteger, Digit, Threshold, QuotientAndRemainder;
    var t := Threshold(k, bias);
    d, m := EncodeUnfold(q, k, bias);
    QuotientIs(q - t, BASE - t, d, m);
    PositionStep(k, q, delta, d, m, t);
    PositionFits(k + BASE, d, delta);
  }

  lemma PositionFits(k: nat, q: nat, delta: uint32)
    requires PositionBound(k, q, delta)
    ensures k < 0x1_0000_0000
  {
  }

  lemma QuotientIs(x: nat, y: nat, d: nat, m: nat)
    requires y > 0 && m < y && x == m + d * y
    ensures QuotientAndRemainder(x, y, d, m)
  {
    DivisionBounds(x, y);
    var d', m' := x / y, x % y;
    assert (d' - d) * y == m - m';
    if d' > d { TimesAtLeastOnce(d' - d, y); }
    if d' < d { TimesAtLeastOnce(d - d', y); }
  }

  lemma TimesAtLeastOnce(a: int, y: nat)
    requires a >= 1
    ensures a * y >= y
  {
    ProductIsNat(a - 1, y);
    assert a * y == (a - 1) * y + y;
  }

  /* Bias adaptation. */

  lemma {:induction false} AdaptLoopBound(delta: nat, k: nat)
    ensures k <= AdaptLoop(delta, k) <= k + 36 + delta / 2
    decreases delta
  {
    if delta > (BASE - TMIN) * TMAX / 2 {
      AdaptLoopBound(delta / 35, k + BASE);
    } else {
      QuotientBelow(36 * delta, delta + SKEW, 36);
    }
  }

  lemma QuotientBelow(x: nat, y: nat, b: nat)
    requires y > 0 && x < b * y
    ensures 0 <= x / y < b
  {
    DivisionBounds(x, y);
    if x / y >= b { ProductIsNat(x / y - b, y); }
  }

  // for (bias = 0; delta > 35 * 26 / 2; bias += 36) delta /= 35;
  // bias += 36 * delta / (delta + 38);
  method NewBias(delta0: uint32) returns (bias: uint32)
    ensures bias == AdaptLoop(delta0, 0)
  {
    var delta := delta0;
    bias := 0;
    while delta > 35 * 26 / 2
      invariant AdaptLoop(delta, bias) == AdaptLoop(delta0, 0)
      decreases delta
    {
      AdaptLoopBound(delta0, 0);
      AdaptLoopBound(delta / 35, bias + 36);
      delta := delta / 35;
      bias := bias + 36;
    }
    AdaptLoopBound(delta0, 0);
    bias := bias + 36 * delta / (delta + 38);
  }

  // delta += delta / h;
  method AddShare(delta: uint32, h: uint32) returns (r: uint32)
    requires delta < 0x8000_0000 && h > 0
    ensures r == delta + delta / h
  {
    DivisionBounds(delta, h);
    r := delta + delta / h;
  }

  // delta /= 2; if (first) delta /= 350; delta += delta / h; and the new bias.
  method AdaptBias(delta0: uint32, h: uint32, first: bool) returns (bias: uint32)
    requires h > 0
    ensures bias == Adapt(delta0, h, first)
  {
    hide AdaptLoop;
    var delta: uint32 := delta0 / 2;
    if first {
      delta := delta / 350;
    }
    assert delta == if first then delta0 / DAMP else delta0 / 2;
    delta := AddShare(delta, h);
    bias := NewBias(delta);
  }

  /* The encoder's position against the decoder's state. */

  // The decoder, having read what was written, is `delta` steps behind the
  // encoder, which stands at code point n and position p of the label.
  ghost predicate Synced(s: seq<nat>, n: nat, p: nat, st: DecoderState, delta: int, h: nat, bias: nat, first: bool) {
    && p <= |s| && st.n <= n
    && st.output == Inserted(s, n, p) && h == |st.output| && bias == st.bias && (first <==> st.i == 0)
    && st.i + delta == (n - st.n) * (h + 1) + Before(s, n, p)
  }

  // Reading `written` takes the decoder from `start` to `st`.
  ghost predicate Leads(written: seq<char>, start: DecoderState, st: DecoderState) {
    && (forall rest: seq<char> :: DecodeDeltas(written + rest, start) == DecodeDeltas(rest, st))
    && AllLower(written)
  }

  lemma {:induction false} DigitsAreLower(q: nat, k: nat, bias: nat)
    ensures AllLower(EncodeInteger(q, k, bias))
    decreases q
  {
    if q >= Threshold(k, bias) {
      var d, m := EncodeUnfold(q, k, bias);
      DigitsAreLower(d, k + BASE, bias);
    }
  }

  lemma LeadsFurther(written: seq<char>, start: DecoderState, st: DecoderState, delta: nat)
    requires Leads(written, start, st)
    ensures Leads(written + EncodeInteger(delta, BASE, st.bias), start, Insert(st, delta))
  {
    hide EncodeInteger, Insert, DecodeDeltas;
    var e := EncodeInteger(delta, BASE, st.bias);
    forall rest: seq<char>
      ensures DecodeDeltas(written + e + rest, start) == DecodeDeltas(rest, Insert(st, delta))
    {
      assert written + e + rest == written + (e + rest);
      DecodeOneDelta(delta, st, rest);
    }
    DigitsAreLower(delta, BASE, st.bias);
  }

  lemma MixedRadix(a: nat, b: nat, y: nat)
    requires b < y
    ensures (a * y + b) / y == a && (a * y + b) % y == b
  {
    ProductIsNat(a, y);
    QuotientIs(a * y + b, y, a, b);
  }

  // The encoder passes a code point other than n.
  lemma SyncedPast(s: seq<nat>, n: nat, p: nat, st: DecoderState, delta: nat, h: nat, bias: nat, first: bool)
    requires Synced(s, n, p, st, delta, h, bias, first) && p < |s| && s[p] != n
    ensures Synced(s, n, p + 1, st, if s[p] < n then delta + 1 else delta, h, bias, first)
  {
    InsertedNoMark(s, n, p, p + 1);
    BeforeStep(s, n, p);
  }

  // The encoder reaches an occurrence of n and writes the delta.
  lemma SyncedInsert(s: seq<nat>, n: nat, p: nat, st: DecoderState, delta: nat, h: nat, bias: nat, first: bool)
    requires Synced(s, n, p, st, delta, h, bias, first) && p < |s| && s[p] == n
    ensures Synced(s, n, p + 1, Insert(st, delta), 0, h + 1, Adapt(delta, h + 1, first), false)
  {
    hide Adapt, Insert, Inserted, Before;
    BeforeBound(s, n, p);
    BeforeStep(s, n, p);
    InsertedStep(s, n, p);
    InsertIs(st, delta, Before(s, n, p), n - st.n);
  }

  // Where the decoder inserts, from the mixed-radix form of its counter.
  lemma InsertIs(st: DecoderState, delta: nat, b: nat, m: nat)
    requires b <= |st.output| && st.i + delta == m * (|st.output| + 1) + b
    ensures Insert(st, delta) == DecoderState(st.n + m, b + 1, Adapt(delta, |st.output| + 1, st.i == 0),
                                              st.output[..b] + [st.n + m] + st.output[b..])
  {
    hide Adapt;
    MixedRadix(m, b, |st.output| + 1);
  }

  // The pass over n is complete.
  lemma SyncedNext(s: seq<nat>, n: nat, st: DecoderState, delta: nat, h: nat, bias: nat, first: bool)
    requires Synced(s, n, |s|, st, delta, h, bias, first)
    ensures Synced(s, n + 1, 0, st, delta + 1, h, bias, first)
  {
    BeforeBound(s, n, |s|);
    InsertedNext(s, n);
    assert s[..0] == [];
    assert (n + 1 - st.n) * (h + 1) == (n - st.n) * (h + 1) + (h + 1);
  }

  // The encoder skips to the next code point that occurs.
  lemma SyncedJump(s: seq<nat>, n: nat, m: nat, st: DecoderState, delta: nat, h: nat, bias: nat, first: bool)
    requires Synced(s, n, 0, st, delta, h, bias, first) && n <= m
    requires forall j :: 0 <= j < |s| ==> s[j] < n || s[j] >= m
    ensures Synced(s, m, 0, st, delta + (m - n) * (h + 1), h, bias, first)
  {
    ProductIsNat(m - n, h + 1);
    InsertedJump(s, n, m);
    assert s[..0] == [];
    assert (m - st.n) * (h + 1) == (n - st.n) * (h + 1) + (m - n) * (h + 1);
  }

  // A label short enough for the code point range cannot overflow a delta.
  ghost predicate Short(s: seq<nat>) {
    0x11_0000 * (|s| + 1) <= UINT_MAX
  }

  lemma SyncedBound(s: seq<nat>, n: nat, p: nat, st: DecoderState, delta: int, h: nat, bias: nat, first: bool)
    requires Synced(s, n, p, st, delta, h, bias, first) && n < 0x11_0000
    ensures Short(s) ==> delta < UINT_MAX
  {
    BeforeBound(s, n, p);
    var a := n - st.n;
    assert a * (h + 1) + (h + 1) == (a + 1) * (h + 1);
    ProductMonotone(a + 1, 0x11_0000, h + 1, |s| + 1);
  }

  lemma ProductMonotone(a: nat, b: nat, c: nat, d: nat)
    requires a <= b && c <= d
    ensures a * c <= b * d
  {
    ProductIsNat(b - a, c);
    ProductIsNat(b, d - c);
    assert b * d == a * c + (b - a) * c + b * (d - c);
  }

  /* The encoder. */

  // The loop variables of the encoder that live across passes, with the ghost
  // state of a decoder that has read what was written.
  datatype Vars = Vars(h: uint32, delta: uint32, bias: uint32, first: bool, todo: uint32)

  ghost predicate Running(s: seq<uint32>, n: nat, p: nat, v: Vars, st: DecoderState) {
    && Synced(s, n, p, st, v.delta, v.h, v.bias, v.first)
    && v.todo + v.h == |s| < UINT_MAX
  }

  ghost predicate Occurs(s: seq<uint32>, n: nat, p: nat)
    requires p <= |s|
  {
    exists j :: 0 <= j < p && s[j] == n
  }

  // One pass of the outer loop over the label: None is UV_E2BIG.
  method InsertAll(s: seq<uint32>, n: uint32, v0: Vars, d: Output,
                   ghost start: DecoderState, ghost st0: DecoderState, ghost before: seq<char>, ghost written0: seq<char>)
    returns (r: Option<Vars>, ghost st: DecoderState, ghost written: seq<char>)
    requires d.Valid() && n < 0x11_0000 && Running(s, n, 0, v0, st0)
    requires d.full == before + written0 && Leads(written0, start, st0)
    modifies d
    ensures d.Valid()
    ensures r.Some? ==> Running(s, n, |s|, r.value, st) && d.full == before + written && Leads(written, start, st)
    ensures r.Some? && Occurs(s, n, |s|) ==> r.value.delta <= |s| && r.value.todo < v0.todo
    ensures Short(s) ==> r.Some?
  {
    hide EncodeInteger, Adapt, Leads, Synced, Insert, Short;
    var v := v0;
    st, written := st0, written0;
    for p := 0 to |s|
      invariant d.Valid() && Running(s, n, p, v, st)
      invariant d.full == before + written && Leads(written, start, st)
      invariant Occurs(s, n, p) ==> v.delta <= p && v.todo < v0.todo
      invariant v.todo <= v0.todo
    {
      var c := s[p];
      if c < n {
        SyncedPast(s, n, p, st, v.delta, v.h, v.bias, v.first);
        SyncedBound(s, n, p, st, v.delta, v.h, v.bias, v.first);
        if v.delta == UINT_MAX {
          return None, st, written;
        }
        v := v.(delta := v.delta + 1);
      }
      if c != n {
        if c > n { SyncedPast(s, n, p, st, v.delta, v.h, v.bias, v.first); }
        continue;
      }
      WriteDelta(d, v.delta, v.bias);
      SyncedInsert(s, n, p, st, v.delta, v.h, v.bias, v.first);
      LeadsFurther(written, start, st, v.delta);
      SyncedRoom(s, n, p, st, v.delta, v.h, v.bias, v.first);
      var bias := AdaptBias(v.delta, v.h + 1, v.first);
      written := written + EncodeInteger(v.delta, BASE, v.bias);
      st := Insert(st, v.delta);
      v := Vars(v.h + 1, 0, bias, false, v.todo - 1);
    }
    r := Some(v);
  }

  // While an occurrence of n is ahead, not everything has been written.
  lemma SyncedRoom(s: seq<nat>, n: nat, p: nat, st: DecoderState, delta: nat, h: nat, bias: nat, first: bool)
    requires Synced(s, n, p, st, delta, h, bias, first) && p < |s| && s[p] == n
    ensures h < |s| && st.bias == bias
  {
    InsertedStep(s, n, p);
  }

  // The smallest code point of the label at or above n, or (unsigned) -1.
  method NextCodePoint(s: seq<uint32>, n: uint32) returns (m: uint32)
    ensures forall j :: 0 <= j < |s| ==> s[j] < n || s[j] >= m
    ensures m == UINT_MAX || (m in s && m >= n)
  {
    m := UINT_MAX;
    for p := 0 to |s|
      invariant forall j :: 0 <= j < p ==> s[j] < n || s[j] >= m
      invariant m == UINT_MAX || (m in s && m >= n)
    {
      var c := s[p];
      if c >= n {
        if c < m {
          m := c;
        }
      }
    }
  }

  lemma {:induction false} InsertedWhole(s: seq<nat>, n: nat)
    requires forall j :: 0 <= j < |s| ==> s[j] < n
    ensures |Inserted(s, n, 0)| == |s|
  {
    if s != [] { InsertedWhole(s[..|s| - 1], n); }
  }

  // While something is left to write, some code point at or above n occurs.
  lemma SomethingLeft(s: seq<uint32>, n: nat, v: Vars, st: DecoderState, m: uint32)
    requires WellFormed(s) && Running(s, n, 0, v, st) && v.todo > 0
    requires forall j :: 0 <= j < |s| ==> s[j] < n || s[j] >= m
    requires m == UINT_MAX || (m in s && m >= n)
    ensures m in s && n <= m < 0x11_0000 && Occurs(s, m, |s|)
  {
    if m == UINT_MAX {
      forall j | 0 <= j < |s| ensures s[j] < n { assert s[j] in s; }
      InsertedWhole(s, n);
    } else {
      var j :| 0 <= j < |s| && s[j] == m;
    }
  }

  // The overflow test: x > ~delta / y exactly when delta + x * y does not fit.
  lemma OverflowTest(x: nat, y: nat, delta: uint32)
    requires y > 0
    ensures x > (UINT_MAX - delta) / y <==> delta + x * y > UINT_MAX
  {
    var a := UINT_MAX - delta;
    DivisionBounds(a, y);
    if x > a / y {
      ProductMonotone(a / y + 1, x, y, y);
      assert (a / y + 1) * y == a / y * y + y;
    } else {
      ProductMonotone(x, a / y, y, y);
    }
  }

  // x = m - n; y = h + 1; if (x > ~delta / y) return UV_E2BIG; delta += x * y;
  method SkipTo(s: seq<uint32>, n: uint32, m: uint32, v: Vars, ghost st: DecoderState) returns (r: Option<Vars>)
    requires Running(s, n, 0, v, st) && n <= m < 0x11_0000
    requires forall j :: 0 <= j < |s| ==> s[j] < n || s[j] >= m
    ensures r.Some? ==> Running(s, m, 0, r.value, st) && r.value.todo == v.todo
    ensures Short(s) ==> r.Some?
  {
    var x := m - n;
    var y := v.h + 1;
    OverflowTest(x, y, v.delta);
    SyncedJump(s, n, m, st, v.delta, v.h, v.bias, v.first);
    SyncedBound(s, m, 0, st, v.delta + x * y, v.h, v.bias, v.first);
    if x > (UINT_MAX - v.delta) / y {
      return None;
    }
    r := Some(v.(delta := v.delta + x * y));
  }

  // Write all deltas: the result is 0 or UV_E2BIG.
  method WriteDeltas(s: seq<uint32>, h: uint32, todo: uint32, d: Output) returns (rc: int, ghost written: seq<char>)
    requires d.Valid() && WellFormed(s) && h + todo == |s| < UINT_MAX && h == |Basic(s)|
    modifies d
    ensures d.Valid() && (rc == 0 || rc == UV_E2BIG) && (Short(s) ==> rc == 0)
    ensures rc == 0 ==> && d.full == old(d.full) + written && AllLower(written)
                        && DecodeDeltas(written, Start(Basic(s))) == Some(s)
  {
    hide DecodeDeltas, Leads, Synced, Short, WellFormed, Occurs, Start, Inserted;
    var n: uint32 := 128;
    var v := Vars(h, 0, 72, true, todo);
    ghost var start := Start(Basic(s));
    ghost var st := start;
    written := [];
    RunningStart(s, v);
    while v.todo > 0
      invariant d.Valid() && Running(s, n, 0, v, st) && n <= 0x11_0000
      invariant d.full == old(d.full) + written && Leads(written, start, st)
      decreases v.todo
    {
      var m := NextCodePoint(s, n);
      SomethingLeft(s, n, v, st, m);
      var r := SkipTo(s, n, m, v, st);
      if r.None? {
        return UV_E2BIG, written;
      }
      v := r.value;
      n := m;
      r, st, written := InsertAll(s, n, v, d, start, st, old(d.full), written);
      if r.None? {
        return UV_E2BIG, written;
      }
      v := r.value;
      SyncedNext(s, n, st, v.delta, v.h, v.bias, v.first);
      v := v.(delta := v.delta + 1);
      n := n + 1;
    }
    RunningEnd(s, n, v, st, start, written);
    rc := 0;
  }

  lemma RunningStart(s: seq<uint32>, v: Vars)
    requires v == Vars(v.h, 0, INITIAL_BIAS, true, v.todo) && v.h == |Basic(s)| && v.h + v.todo == |s| < UINT_MAX
    ensures Running(s, INITIAL_N, 0, v, Start(Basic(s))) && Leads([], Start(Basic(s)), Start(Basic(s)))
  {
    assert s[..0] == [];
    forall rest: seq<char> ensures [] + rest == rest {}
  }

  lemma RunningEnd(s: seq<uint32>, n: nat, v: Vars, st: DecoderState, start: DecoderState, written: seq<char>)
    requires Running(s, n, 0, v, st) && v.todo == 0 && Leads(written, start, st)
    ensures DecodeDeltas(written, start) == Some(s) && AllLower(written)
  {
    assert written + [] == written;
    InsertedAll(s, n, 0);
  }

  /* The ASCII code points. */

  ghost function AsciiText(s: seq<uint32>): (r: seq<char>)
    ensures |r| <= |s|
  {
    if s == [] then []
    else
      var r := AsciiText(s[..|s| - 1]);
      if IsAscii(s[|s| - 1]) then r + [s[|s| - 1] as char] else r
  }

  lemma {:induction false} AsciiTextIsBasic(s: seq<uint32>)
    ensures CodePoints(AsciiText(s)) == Basic(s)
  {
    if s != [] { AsciiTextIsBasic(s[..|s| - 1]); }
  }

  lemma {:induction false} AsciiTextIsAscii(s: seq<uint32>)
    ensures forall i :: 0 <= i < |AsciiText(s)| ==> AsciiText(s)[i] as int < 128
  {
    if s != [] { AsciiTextIsAscii(s[..|s| - 1]); }
  }

  lemma AsciiStep(s: seq<uint32>, p: nat)
    requires p < |s|
    ensures AsciiText(s[..p + 1]) == AsciiText(s[..p]) + if IsAscii(s[p]) then [s[p] as char] else []
  {
    assert s[..p + 1][..p] == s[..p];
  }

  // Having seen as many ASCII code points as there are, the rest has none.
  lemma {:induction false} AsciiPrefix(s: seq<uint32>, p: nat)
    requires p <= |s|
    ensures |AsciiText(s[..p])| <= |AsciiText(s)|
    ensures |AsciiText(s[..p])| == |AsciiText(s)| ==> AsciiText(s[..p]) == AsciiText(s)
    decreases |s|
  {
    if p < |s| {
      AsciiPrefix(s[..|s| - 1], p);
      assert s[..|s| - 1][..p] == s[..p];
    } else {
      assert s[..p] == s;
    }
  }

  lemma {:induction false} AllAscii(s: seq<uint32>)
    requires |AsciiText(s)| == |s|
    ensures CodePoints(AsciiText(s)) == s
  {
    if s != [] {
      AllAscii(s[..|s| - 1]);
      assert s == s[..|s| - 1] + [s[|s| - 1]];
    }
  }

  // The two counting loops: None is UV_EINVAL.
  method CountCodePoints(s: seq<uint32>) returns (r: Option<(uint32, uint32)>)
    requires |s| < UINT_MAX && forall c :: c in s ==> c < 0x11_0000 || c == UINT_MAX
    ensures r.Some? <==> WellFormed(s)
    ensures r.Some? ==> r.value.0 == |AsciiText(s)| && r.value.0 + r.value.1 == |s|
  {
    var h: uint32, todo: uint32 := 0, 0;
    for p := 0 to |s|
      invariant WellFormed(s[..p])
      invariant h == |AsciiText(s[..p])| && h + todo == p
    {
      AsciiStep(s, p);
      var c := s[p];
      assert s[..p + 1] == s[..p] + [c] && c in s;
      if c < 128 {
        h := h + 1;
      } else if c == UINT_MAX {
        return None;
      } else {
        todo := todo + 1;
      }
    }
    assert s[..|s|] == s;
    r := Some((h, todo));
  }

  // Copy the ASCII code points, stopping after the h-th.
  method WriteAscii(s: seq<uint32>, h: uint32, d: Output)
    requires d.Valid() && |s| < UINT_MAX && h == |AsciiText(s)|
    modifies d
    ensures d.Valid() && d.full == old(d.full) + AsciiText(s)
  {
    var x: uint32 := 0;
    for p := 0 to |s|
      invariant d.Valid() && x == |AsciiText(s[..p])| && x <= p
      invariant d.full == old(d.full) + AsciiText(s[..p])
    {
      AsciiStep(s, p);
      var c := s[p];
      if c > 127 {
        continue;
      }
      d.Put(c as char);
      x := x + 1;
      if x == h {
        AsciiPrefix(s, p + 1);
        return;
      }
    }
    assert s[..|s|] == s;
  }

  lemma {:induction false} NoDelimiter(s: seq<char>)
    requires '-' !in s
    ensures AfterLastDelimiter(s) == 0
  {
    if s != [] { NoDelimiter(s[..|s| - 1]); }
  }

  lemma {:induction false} LastDelimiter(a: seq<char>, t: seq<char>)
    requires '-' !in t
    ensures AfterLastDelimiter(a + ['-'] + t) == |a| + 1
  {
    if t != [] {
      var s := a + ['-'] + t;
      assert s[..|s| - 1] == a + ['-'] + t[..|t| - 1];
      LastDelimiter(a, t[..|t| - 1]);
    }
  }

  // Basic code points, a delimiter if there are any, and the deltas.
  function Label(basic: seq<char>, deltas: seq<char>): seq<char> {
    (if basic == [] then [] else basic + ['-']) + deltas
  }

  lemma LabelDecodes(s: seq<uint32>, deltas: seq<char>)
    requires AllLower(deltas) && DecodeDeltas(deltas, Start(Basic(s))) == Some(s)
    ensures Decode(Label(AsciiText(s), deltas)) == Some(s) && Canonical(Label(AsciiText(s), deltas))
  {
    hide DecodeDeltas;
    var basic := AsciiText(s);
    var e := Label(basic, deltas);
    AsciiTextIsBasic(s);
    AsciiTextIsAscii(s);
    if basic == [] {
      NoDelimiter(deltas);
      assert e == deltas && e[0..] == deltas && e[..0] == [];
    } else {
      LastDelimiter(basic, deltas);
      assert e == basic + ['-'] + deltas;
      assert e[|basic| + 1..] == deltas && e[..|basic|] == basic;
    }
  }

  // uv__idna_toascii_label on the decoded code points of a label.
  method ToAsciiLabel(s: seq<uint32>, d: Output) returns (rc: int)
    requires d.Valid() && |s| < UINT_MAX
    requires forall c :: c in s ==> c < 0x11_0000 || c == UINT_MAX
    modifies d
    ensures d.Valid()
    ensures rc == UV_EINVAL <==> !WellFormed(s)
    ensures rc == UV_EINVAL ==> d.full == old(d.full)
    // An all-ASCII label is copied.
    ensures (forall c :: c in s ==> IsAscii(c)) ==>
      rc == |s| && d.full == old(d.full) + AsciiText(s) && CodePoints(AsciiText(s)) == s
    // Any other becomes "xn--" and the canonical string that decodes to the label.
    ensures WellFormed(s) && (exists c :: c in s && !IsAscii(c)) ==> rc == 0 || rc == UV_E2BIG
    ensures rc == 0 && s != [] ==>
      exists e: seq<char> :: d.full == old(d.full) + "xn--" + e && Decode(e) == Some(s) && Canonical(e)
    ensures Short(s) ==> rc != UV_E2BIG
  {
    hide DecodeDeltas, Short, Decode, Canonical, Inserted, AsciiText, Start;
    var counts := CountCodePoints(s);
    if counts.None? {
      return UV_EINVAL;
    }
    var (h, todo) := counts.value;
    CountsMean(s);
    if todo == 0 {
      WriteAscii(s, h, d);
      return h;
    }
    rc := WriteEncoded(s, h, todo, d);
  }

  // The label has a code point that is not ASCII.
  method WriteEncoded(s: seq<uint32>, h: uint32, todo: uint32, d: Output) returns (rc: int)
    requires d.Valid() && |s| < UINT_MAX && WellFormed(s) && todo > 0
    requires h == |AsciiText(s)| && h + todo == |s|
    modifies d
    ensures d.Valid() && (rc == 0 || rc == UV_E2BIG) && (Short(s) ==> rc == 0)
    ensures rc == 0 ==> exists e: seq<char> :: d.full == old(d.full) + "xn--" + e && Decode(e) == Some(s) && Canonical(e)
  {
    hide DecodeDeltas, Short, Decode, Canonical, Inserted, AsciiText, Start, WellFormed;
    d.Put('x');
    d.Put('n');
    d.Put('-');
    d.Put('-');
    assert d.full == old(d.full) + "xn--";
    WriteAscii(s, h, d);
    // Only write the separator when ASCII characters were written first.
    if h > 0 {
      d.Put('-');
    }
    AsciiTextIsBasic(s);
    ghost var written;
    rc, written := WriteDeltas(s, h, todo, d);
    if rc == 0 {
      LabelDecodes(s, written);
      assert d.full == old(d.full) + "xn--" + Label(AsciiText(s), written);
    }
  }

  lemma CountsMean(s: seq<uint32>)
    ensures (forall c :: c in s ==> IsAscii(c)) <==> |AsciiText(s)| == |s|
    ensures |AsciiText(s)| == |s| ==> CodePoints(AsciiText(s)) == s
  {
    if |AsciiText(s)| == |s| {
      AllAscii(s);
      forall c | c in s ensures IsAscii(c) {
        var i :| 0 <= i < |s| && s[i] == c;
        AsciiAt(s, i);
      }
    } else {
      if forall c :: c in s ==> IsAscii(c) { AsciiCount(s); }
    }
  }

  lemma {:induction false} AsciiCount(s: seq<uint32>)
    requires forall c :: c in s ==> IsAscii(c)
    ensures |AsciiText(s)| == |s|
  {
    if s != [] {
      assert s[|s| - 1] in s;
      AsciiCount(s[..|s| - 1]);
    }
  }

  lemma {:induction false} AsciiAt(s: seq<uint32>, i: nat)
    requires i < |s| && |AsciiText(s)| == |s|
    ensures IsAscii(s[i])
  {
    if i < |s| - 1 { AsciiAt(s[..|s| - 1], i); }
  }
}
