/**
 * The PostgreSQL `numeric` binary send format as produced by
 * `numeric_to_postgres_binary`: four int16 header fields (ndigits, weight,
 * sign, dscale) followed by base-10000 digit groups, all big-endian.
 *
 * The float-to-text step of the original is abstracted: the input is the
 * sign bit of the float and the decimal text of its magnitude, split at the
 * decimal point into `integer` and `fraction`.
 */
module Numeric {
  import opened BigEndian

  /** Sign flags of the numeric send format. */
  const NUMERIC_POS: int := 0x0000
  const NUMERIC_NEG: int := 0x4000

  /** The largest length the `as i16` casts of the original carry unchanged. */
  const MAX_INT16: int := 0x7FFF

  /**
   * A finite decimal: the sign bit of the original float (so `-0.0` has
   * `negative == true`) and the digits of its magnitude before and after
   * the decimal point.
   */
  datatype Decimal = Decimal(negative: bool, integer: string, fraction: string)

  /** The numeric value as it travels: header fields and digit groups. */
  datatype NumericWire = NumericWire(weight: int, sign: int, dscale: int, digits: seq<int>)

  predicate IsDigit(c: char) { '0' <= c <= '9' }

  predicate AllDigits(s: string) { forall i :: 0 <= i < |s| ==> IsDigit(s[i]) }

  /**
   * The text of a finite float: a non-empty integer part, digits only, and
   * lengths that the int16 header fields hold without truncation.
   */
  predicate ValidDecimal(d: Decimal)
  {
    && 1 <= |d.integer| <= MAX_INT16
    && |d.fraction| <= MAX_INT16
    && AllDigits(d.integer)
    && AllDigits(d.fraction)
  }

  /** A wire value a reader accepts: int16 header fields, a known sign flag, digits in [0, 9999]. */
  predicate WellFormedWire(w: NumericWire)
  {
    && IsInt16(|w.digits|)
    && IsInt16(w.weight)
    && (w.sign == NUMERIC_POS || w.sign == NUMERIC_NEG)
    && 0 <= w.dscale <= MAX_INT16
    && forall i :: 0 <= i < |w.digits| ==> 0 <= w.digits[i] <= 9999
  }

  // ---------------------------------------------------------------------
  // Decimal digit strings

  function DigitValue(c: char): (v: nat)
    requires IsDigit(c)
    ensures v <= 9
  {
    c as int - '0' as int
  }

  function Pow10(n: nat): (r: nat)
    ensures r >= 1
  {
    if n == 0 then 1 else 10 * Pow10(n - 1)
  }

  lemma {:induction false} Pow10Add(a: nat, b: nat)
    ensures Pow10(a + b) == Pow10(a) * Pow10(b)
  {
    if b > 0 {
      Pow10Add(a, b - 1);
    }
  }

  /** The value of a digit string read in base 10, most significant digit first. */
  function DigitsValue(s: string): (v: nat)
    requires AllDigits(s)
    ensures v < Pow10(|s|)
  {
    if s == [] then 0
    else
      var high := DigitsValue(s[..|s| - 1]);
      assert high * 10 <= (Pow10(|s| - 1) - 1) * 10;
      high * 10 + DigitValue(s[|s| - 1])
  }

  lemma {:induction false} DigitsValueConcat(a: string, b: string)
    requires AllDigits(a) && AllDigits(b)
    ensures AllDigits(a + b)
    ensures DigitsValue(a + b) == DigitsValue(a) * Pow10(|b|) + DigitsValue(b)
  {
    if b == [] {
      assert a + b == a;
    } else {
      var b' := b[..|b| - 1];
      assert (a + b)[..|a + b| - 1] == a + b';
      DigitsValueConcat(a, b');
      var x, y, p := DigitsValue(a), DigitsValue(b'), Pow10(|b'|);
      var last := DigitValue(b[|b| - 1]);
      assert DigitsValue(a + b) == DigitsValue(a + b') * 10 + last;
      assert DigitsValue(b) == y * 10 + last;
      assert Pow10(|b|) == p * 10;
      ShiftDigit(x, p, y, last);
    }
  }

  /** Proof step only: keeps nonlinear arithmetic out of the grouping proofs' contexts. */
  lemma Distribute(x: int, p: int, y: int, q: int)
    ensures (x * p + y) * q == x * (p * q) + y * q
  {
  }

  /** Proof step only: keeps nonlinear arithmetic out of `DigitsValueConcat`'s context. */
  lemma ShiftDigit(x: int, p: int, y: int, last: int)
    ensures (x * p + y) * 10 + last == x * (p * 10) + (y * 10 + last)
  {
  }

  function Zeros(n: nat): (z: string)
    ensures |z| == n && forall i :: 0 <= i < n ==> z[i] == '0'
  {
    seq(n, _ => '0')
  }

  lemma {:induction false} ZerosValue(n: nat)
    ensures AllDigits(Zeros(n)) && DigitsValue(Zeros(n)) == 0
  {
    if n > 0 {
      assert Zeros(n)[..n - 1] == Zeros(n - 1);
      ZerosValue(n - 1);
    }
  }

  // ---------------------------------------------------------------------
  // Weight, padding and digit groups

  /** The weight: the number of whole 4-digit groups before the decimal point, less one. */
  function Weight(integerLength: nat): (w: nat)
    requires integerLength >= 1
    ensures 4 * w < integerLength <= 4 * (w + 1)
  {
    (integerLength - 1) / 4
  }

  /** The fewest zeros that bring a length of `n` to a multiple of 4. */
  function Padding(n: nat): (p: nat)
    ensures p < 4 && (n + p) % 4 == 0
  {
    if n % 4 != 0 then 4 - n % 4 else 0
  }

  /**
   * The digit string that is cut into groups: the integer part left-padded
   * with '0' to a group boundary, followed by the fraction unchanged.
   */
  function PaddedNumber(d: Decimal): (s: string)
    requires ValidDecimal(d)
    ensures AllDigits(s)
    ensures |s| == 4 * (Weight(|d.integer|) + 1) + |d.fraction|
    ensures var n := |s| - |d.fraction|;
            && n % 4 == 0 && |d.integer| <= n < |d.integer| + 4
            && s[n - |d.integer|..] == d.integer + d.fraction
            && forall i :: 0 <= i < n - |d.integer| ==> s[i] == '0'
  {
    var z := Zeros(Padding(|d.integer|));
    assert (z + d.integer + d.fraction)[|z|..] == d.integer + d.fraction;
    z + d.integer + d.fraction
  }

  lemma GroupValueBound(chunk: string)
    requires 1 <= |chunk| <= 4 && AllDigits(chunk)
    ensures DigitsValue(chunk) * Pow10(4 - |chunk|) <= 9999
  {
    var v, k := DigitsValue(chunk), Pow10(4 - |chunk|);
    Pow10Add(|chunk|, 4 - |chunk|);
    assert Pow10(|chunk|) * k == 10000;
    assert v * k <= (Pow10(|chunk|) - 1) * k;
  }

  /**
   * One base-10000 digit from a chunk of at most four characters; a short
   * trailing chunk is worth as much as if it were right-padded with zeros.
   */
  function GroupValue(chunk: string): (v: nat)
    requires 1 <= |chunk| <= 4 && AllDigits(chunk)
    ensures v <= 9999
    ensures v * Pow10(|chunk|) == DigitsValue(chunk) * 10000
  {
    GroupValueBound(chunk);
    Pow10Add(|chunk|, 4 - |chunk|);
    DigitsValue(chunk) * Pow10(4 - |chunk|)
  }

  /** The digit groups of `s`, cut into chunks of 4 from the left. */
  function Groups(s: string): (gs: seq<int>)
    requires AllDigits(s)
    ensures |gs| == (|s| + 3) / 4
    ensures forall i :: 0 <= i < |gs| ==> 0 <= gs[i] <= 9999
    decreases |s|
  {
    if s == [] then []
    else
      var k := if |s| < 4 then |s| else 4;
      [GroupValue(s[..k])] + Groups(s[k..])
  }

  /** The digit groups read as one base-10000 integer, most significant first. */
  function GroupsValue(gs: seq<int>): int
  {
    if gs == [] then 0 else gs[0] * Pow10(4 * (|gs| - 1)) + GroupsValue(gs[1..])
  }

  /** Grouping keeps the value of the digit string, scaled by the zeros implied at its right end. */
  lemma {:induction false} GroupsDenote(s: string)
    requires AllDigits(s)
    ensures 4 * |Groups(s)| >= |s|
    ensures GroupsValue(Groups(s)) == DigitsValue(s) * Pow10(4 * |Groups(s)| - |s|)
    decreases |s|
  {
    if |s| > 4 {
      GroupsDenote(s[4..]);
      GroupsDenoteStep(s);
    } else if s != [] {
      assert Groups(s) == [GroupValue(s)] by {
        assert s[..|s|] == s;
      }
    }
  }

  /** The inductive step of `GroupsDenote`: a full leading chunk in front of the rest. */
  lemma GroupsDenoteStep(s: string)
    requires AllDigits(s) && |s| > 4
    requires 4 * |Groups(s[4..])| >= |s| - 4
    requires GroupsValue(Groups(s[4..])) == DigitsValue(s[4..]) * Pow10(4 * |Groups(s[4..])| - (|s| - 4))
    ensures 4 * |Groups(s)| >= |s|
    ensures GroupsValue(Groups(s)) == DigitsValue(s) * Pow10(4 * |Groups(s)| - |s|)
  {
    var c, t := s[..4], s[4..];
    assert s == c + t;
    DigitsValueConcat(c, t);
    var gs := Groups(s);
    var m := |Groups(t)|;
    var e := 4 * m - |t|;
    assert gs == [GroupValue(c)] + Groups(t);
    GroupsValueCons(GroupValue(c), Groups(t));
    FullGroupValue(c);
    Pow10Split(|t|, m);
    assert 4 * |gs| - |s| == e;
    ShiftGroup(DigitsValue(c), DigitsValue(t), Pow10(|t|), Pow10(e), Pow10(4 * m),
               GroupsValue(gs), GroupsValue(Groups(t)), DigitsValue(s));
  }

  lemma GroupsValueCons(g: int, rest: seq<int>)
    ensures GroupsValue([g] + rest) == g * Pow10(4 * |rest|) + GroupsValue(rest)
  {
    assert ([g] + rest)[1..] == rest;
  }

  /** A full chunk of four characters is worth its own digits. */
  lemma FullGroupValue(c: string)
    requires |c| == 4 && AllDigits(c)
    ensures GroupValue(c) == DigitsValue(c)
  {
    assert Pow10(4 - |c|) == 1;
  }

  lemma Pow10Split(n: nat, m: nat)
    requires n <= 4 * m
    ensures Pow10(4 * m) == Pow10(n) * Pow10(4 * m - n)
  {
    Pow10Add(n, 4 * m - n);
  }

  /** The arithmetic of `GroupsDenoteStep`, on plain integers. */
  lemma ShiftGroup(x: int, y: int, p: int, q: int, pq: int, g: int, v: int, d: int)
    requires pq == p * q && v == y * q
    requires g == x * pq + v && d == x * p + y
    ensures g == d * q
  {
    Distribute(x, p, y, q);
  }

  // ---------------------------------------------------------------------
  // The numeric value and its meaning

  /** The wire value the encoder produces for `d`. */
  function ToWire(d: Decimal): (w: NumericWire)
    requires ValidDecimal(d)
    ensures WellFormedWire(w)
    ensures (w.sign == NUMERIC_NEG) == d.negative
    ensures w.dscale == |d.fraction|
    ensures 4 * w.weight < |d.integer| <= 4 * (w.weight + 1)
    ensures |w.digits| == (|d.integer| + Padding(|d.integer|) + |d.fraction| + 3) / 4
  {
    NumericWire(Weight(|d.integer|),
                if d.negative then NUMERIC_NEG else NUMERIC_POS,
                |d.fraction|,
                Groups(PaddedNumber(d)))
  }

  /** `x` · 10^k for any integer `k`: the decimal point moved `k` places. */
  function Shift10(x: real, k: int): real
    decreases if k >= 0 then k else -k
  {
    if k == 0 then x
    else if k > 0 then Shift10(x, k - 1) * 10.0
    else Shift10(x, k + 1) / 10.0
  }

  lemma ShiftStep(x: real, k: int)
    ensures Shift10(x, k + 1) == Shift10(x, k) * 10.0
  {
  }

  lemma {:induction false} ShiftZero(k: int)
    ensures Shift10(0.0, k) == 0.0
    decreases if k >= 0 then k else -k
  {
    if k > 0 {
      ShiftZero(k - 1);
    } else if k < 0 {
      ShiftZero(k + 1);
    }
  }

  lemma {:induction false} ShiftAdd(x: real, y: real, k: int)
    ensures Shift10(x + y, k) == Shift10(x, k) + Shift10(y, k)
    decreases if k >= 0 then k else -k
  {
    if k > 0 {
      ShiftAdd(x, y, k - 1);
    } else if k < 0 {
      ShiftAdd(x, y, k + 1);
    }
  }

  lemma {:induction false} ShiftShift(x: real, a: int, b: int, t: int)
    requires t == a + b
    ensures Shift10(Shift10(x, a), b) == Shift10(x, t)
    decreases if b >= 0 then b else -b
  {
    if b > 0 {
      ShiftShift(x, a, b - 1, t - 1);
      ShiftStep(x, t - 1);
    } else if b < 0 {
      ShiftShift(x, a, b + 1, t + 1);
      ShiftStep(x, t);
    }
  }

  lemma {:induction false} ShiftInt(n: int, k: nat)
    ensures Shift10(n as real, k) == (n * Pow10(k)) as real
  {
    if k > 0 {
      ShiftInt(n, k - 1);
      assert n * Pow10(k) == (n * Pow10(k - 1)) * 10;
    }
  }

  /** Σ digits[i] · 10000^(weight − i): how a reader of the format values the groups. */
  function GroupsMagnitude(digits: seq<int>, weight: int): real
  {
    if digits == [] then 0.0
    else Shift10(digits[0] as real, 4 * weight) + GroupsMagnitude(digits[1..], weight - 1)
  }

  /** The value a reader of the format assigns to a wire value. */
  function WireValue(w: NumericWire): real
  {
    var m := GroupsMagnitude(w.digits, w.weight);
    if w.sign == NUMERIC_NEG then -m else m
  }

  /** The value of the decimal text `integer.fraction`, with its sign. */
  function DecimalValue(d: Decimal): real
    requires AllDigits(d.integer) && AllDigits(d.fraction)
  {
    var m := DigitsValue(d.integer) as real + Shift10(DigitsValue(d.fraction) as real, -|d.fraction|);
    if d.negative then -m else m
  }

  /** The weighted sum equals the groups read as one integer, scaled to the weight of the last group. */
  lemma {:induction false} GroupsMagnitudeScaled(gs: seq<int>, weight: int, e: int)
    requires e == weight - |gs| + 1
    ensures GroupsMagnitude(gs, weight) == Shift10(GroupsValue(gs) as real, 4 * e)
  {
    if gs != [] {
      var m := |gs| - 1;
      var g, rest := gs[0], gs[1..];
      GroupsMagnitudeScaled(rest, weight - 1, e);
      ShiftInt(g, 4 * m);
      ShiftShift(g as real, 4 * m, 4 * e, 4 * weight);
      assert GroupsMagnitude(rest, weight - 1) == Shift10(GroupsValue(rest) as real, 4 * e);
      assert Shift10(g as real, 4 * weight) == Shift10((g * Pow10(4 * m)) as real, 4 * e);
      ShiftAdd((g * Pow10(4 * m)) as real, GroupsValue(rest) as real, 4 * e);
      assert GroupsValue(gs) == g * Pow10(4 * m) + GroupsValue(rest);
      assert GroupsValue(gs) as real == (g * Pow10(4 * m)) as real + GroupsValue(rest) as real;
    } else {
      ShiftZero(4 * e);
    }
  }

  /** Left-padding with zeros keeps the value: the padded string reads as `integer` · 10^|fraction| + `fraction`. */
  lemma PaddedValue(d: Decimal)
    requires ValidDecimal(d)
    ensures DigitsValue(PaddedNumber(d))
            == DigitsValue(d.integer) * Pow10(|d.fraction|) + DigitsValue(d.fraction)
  {
    var z := Zeros(Padding(|d.integer|));
    assert PaddedNumber(d) == z + d.integer + d.fraction;
    assert DigitsValue(z + d.integer) == DigitsValue(d.integer) by {
      ZerosValue(|z|);
      DigitsValueConcat(z, d.integer);
    }
    DigitsValueConcat(z + d.integer, d.fraction);
  }

  /** The groups hold the padded digits with zeros implied on the right. */
  lemma PaddedGroupsValue(d: Decimal)
    requires ValidDecimal(d)
    ensures 4 * |ToWire(d).digits| >= |PaddedNumber(d)|
    ensures GroupsValue(ToWire(d).digits)
            == (DigitsValue(d.integer) * Pow10(|d.fraction|) + DigitsValue(d.fraction))
               * Pow10(4 * |ToWire(d).digits| - |PaddedNumber(d)|)
  {
    var s, gs := PaddedNumber(d), ToWire(d).digits;
    assert gs == Groups(s);
    GroupsDenote(s);
    PaddedValue(d);
    var k := Pow10(4 * |gs| - |s|);
    assert GroupsValue(gs) == DigitsValue(s) * k;
  }

  /**
   * The groups of `d`, weighed from its weight downwards, are `integer` ·
   * 10^|fraction| + `fraction` moved |fraction| places right of the point.
   */
  lemma GroupsMagnitudeOfWire(d: Decimal)
    requires ValidDecimal(d)
    ensures GroupsMagnitude(ToWire(d).digits, ToWire(d).weight)
            == Shift10((DigitsValue(d.integer) * Pow10(|d.fraction|) + DigitsValue(d.fraction)) as real,
                       -|d.fraction|)
  {
    var w := ToWire(d);
    var s := PaddedNumber(d);
    var f := |d.fraction|;
    var X := DigitsValue(d.integer) * Pow10(f) + DigitsValue(d.fraction);
    var N := |w.digits|;
    var r := 4 * N - |s|;
    var e := N - 1 - w.weight;
    assert r >= 0 && 4 * e == f + r;
    // the groups hold the padded digits with r zeros implied on the right
    PaddedGroupsValue(d);
    // the last group sits at 10000^-e, that is f + r decimal places right of the point
    GroupsMagnitudeScaled(w.digits, w.weight, -e);
    ShiftInt(X, r);
    ShiftShift(X as real, r, -4 * e, -f);
  }

  /**
   * Round trip of the value: reading the groups back with their weight gives
   * exactly the decimal the encoder was given, sign included.
   */
  lemma NumericRoundTrip(d: Decimal)
    requires ValidDecimal(d)
    ensures WireValue(ToWire(d)) == DecimalValue(d)
  {
    var f := |d.fraction|;
    var I, F := DigitsValue(d.integer), DigitsValue(d.fraction);
    GroupsMagnitudeOfWire(d);
    // moving I · 10^f + F back f places gives I + F · 10^-f
    ShiftInt(I, f);
    ShiftAdd((I * Pow10(f)) as real, F as real, -f);
    ShiftShift(I as real, f, -f, 0);
  }

  // ---------------------------------------------------------------------
  // Serialisation and its reader

  /** The digit groups, each as a big-endian int16, in order. */
  function GroupsBytes(gs: seq<int>): (b: seq<Byte>)
    requires forall i :: 0 <= i < |gs| ==> IsInt16(gs[i])
    ensures |b| == 2 * |gs|
  {
    if gs == [] then [] else GroupsBytes(gs[..|gs| - 1]) + Int16Bytes(gs[|gs| - 1])
  }

  /** The numeric send format: ndigits, weight, sign, dscale, then the groups. */
  function SerializeNumeric(w: NumericWire): (b: seq<Byte>)
    requires WellFormedWire(w)
    ensures |b| == 8 + 2 * |w.digits|
  {
    Int16Bytes(|w.digits|) + Int16Bytes(w.weight) + Int16Bytes(w.sign) + Int16Bytes(w.dscale)
    + GroupsBytes(w.digits)
  }

  function DecodeGroups(b: seq<Byte>): (gs: seq<int>)
    requires |b| % 2 == 0
    ensures |gs| == |b| / 2
  {
    if b == [] then [] else DecodeGroups(b[..|b| - 2]) + [SignedValue(b[|b| - 2..])]
  }

  /** Reads a numeric value back, rejecting what `WellFormedWire` excludes. */
  function DecodeNumeric(b: seq<Byte>): (r: Option<NumericWire>)
    ensures r.Some? ==> WellFormedWire(r.value) && |b| == 8 + 2 * |r.value.digits|
  {
    if |b| < 8 then None
    else
      var ndigits := SignedValue(b[0..2]);
      if ndigits < 0 || |b| != 8 + 2 * ndigits then None
      else
        var w := NumericWire(SignedValue(b[2..4]), SignedValue(b[4..6]), SignedValue(b[6..8]),
                             DecodeGroups(b[8..]));
        Int16ValueRange(b[0..2]);
        Int16ValueRange(b[2..4]);
        if WellFormedWire(w) then Some(w) else None
  }

  lemma {:induction false} GroupsRoundTrip(gs: seq<int>)
    requires forall i :: 0 <= i < |gs| ==> IsInt16(gs[i])
    ensures DecodeGroups(GroupsBytes(gs)) == gs
  {
    if gs != [] {
      var init, last := gs[..|gs| - 1], gs[|gs| - 1];
      SplitWord(GroupsBytes(init), Int16Bytes(last));
      Int16RoundTrip(last);
      GroupsRoundTrip(init);
      assert init + [last] == gs;
    }
  }

  /** Proof step only: the last two bytes and what precedes them, so that `GroupsRoundTrip` needs no sequence reasoning of its own. */
  lemma SplitWord(a: seq<Byte>, c: seq<Byte>)
    requires |c| == 2
    ensures (a + c)[..|a + c| - 2] == a && (a + c)[|a + c| - 2..] == c
  {
  }

  /** Byte round trip: the reader recovers every field the writer put down. */
  lemma SerializeRoundTrip(w: NumericWire)
    requires WellFormedWire(w)
    ensures DecodeNumeric(SerializeNumeric(w)) == Some(w)
  {
    var b := SerializeNumeric(w);
    assert b[0..2] == Int16Bytes(|w.digits|);
    assert b[2..4] == Int16Bytes(w.weight);
    assert b[4..6] == Int16Bytes(w.sign);
    assert b[6..8] == Int16Bytes(w.dscale);
    assert b[8..] == GroupsBytes(w.digits);
    Int16RoundTrip(|w.digits|);
    Int16RoundTrip(w.weight);
    Int16RoundTrip(w.sign);
    Int16RoundTrip(w.dscale);
    GroupsRoundTrip(w.digits);
  }

  lemma {:induction false} GroupsBytesAt(gs: seq<int>, i: nat)
    requires forall j :: 0 <= j < |gs| ==> IsInt16(gs[j])
    requires i < |gs|
    ensures GroupsBytes(gs)[2 * i..2 * i + 2] == Int16Bytes(gs[i])
  {
    if i < |gs| - 1 {
      var init := gs[..|gs| - 1];
      GroupsBytesAt(init, i);
      assert GroupsBytes(gs)[..2 * |init|] == GroupsBytes(init);
    }
  }

  /**
   * Byte layout: length 8 + 2·ndigits, the four header fields first, then
   * digit group i at offset 8 + 2i, most significant group first.
   */
  lemma NumericLayout(w: NumericWire)
    requires WellFormedWire(w)
    ensures var b := SerializeNumeric(w);
            && |b| == 8 + 2 * |w.digits|
            && b[0..2] == Int16Bytes(|w.digits|)
            && b[2..4] == Int16Bytes(w.weight)
            && b[4..6] == Int16Bytes(w.sign)
            && b[6..8] == Int16Bytes(w.dscale)
            && forall i :: 0 <= i < |w.digits| ==> b[8 + 2 * i..10 + 2 * i] == Int16Bytes(w.digits[i])
  {
    var b := SerializeNumeric(w);
    assert b[8..] == GroupsBytes(w.digits);
    forall i | 0 <= i < |w.digits|
      ensures b[8 + 2 * i..10 + 2 * i] == Int16Bytes(w.digits[i])
    {
      GroupsBytesAt(w.digits, i);
      assert b[8 + 2 * i..10 + 2 * i] == b[8..][2 * i..2 * i + 2];
    }
  }

  // ---------------------------------------------------------------------
  // The encoder

  /** Accumulates one chunk's group value digit by digit, each at weight 10^(3 - i). */
  method ChunkValue(chunk: string) returns (value: int)
    requires 1 <= |chunk| <= 4 && AllDigits(chunk)
    ensures value == GroupValue(chunk)
    ensures 0 <= value <= 9999
  {
    value := 0;
    for i := 0 to |chunk|
      invariant value == DigitsValue(chunk[..i]) * Pow10(4 - i)
    {
      assert chunk[..i + 1][..i] == chunk[..i];
      assert Pow10(4 - i) == 10 * Pow10(3 - i);
      value := value + DigitValue(chunk[i]) * Pow10(3 - i);
    }
    assert chunk[..|chunk|] == chunk;
  }

  /** The groups from `start` on: the chunk up to `end`, then the groups from `end` on. */
  lemma GroupsFrom(s: string, start: nat, end: nat)
    requires AllDigits(s) && start < |s|
    requires end == if |s| - start < 4 then |s| else start + 4
    ensures AllDigits(s[start..end])
    ensures Groups(s[start..]) == [GroupValue(s[start..end])] + Groups(s[end..])
  {
    var rest := s[start..];
    assert rest[..end - start] == s[start..end];
    assert rest[end - start..] == s[end..];
  }

  /** One more chunk keeps the loop invariant of `CollectGroups`. */
  lemma CollectStep(s: string, start: nat, end: nat, digits: seq<int>)
    requires AllDigits(s) && start < |s|
    requires end == if |s| - start < 4 then |s| else start + 4
    requires digits + Groups(s[start..]) == Groups(s)
    ensures AllDigits(s[start..end])
    ensures digits + [GroupValue(s[start..end])] + Groups(s[end..]) == Groups(s)
  {
    GroupsFrom(s, start, end);
    ConcatAssoc(digits, [GroupValue(s[start..end])], Groups(s[end..]));
  }


  /** Cuts the padded digit string into chunks of four from the left and values each chunk. */
  method CollectGroups(paddedNumber: string) returns (digits: seq<int>)
    requires AllDigits(paddedNumber)
    ensures digits == Groups(paddedNumber)
  {
    digits := [];
    var start := 0;
    while start < |paddedNumber|
      invariant 0 <= start <= |paddedNumber|
      invariant digits + Groups(paddedNumber[start..]) == Groups(paddedNumber)
    {
      var end := if |paddedNumber| - start < 4 then |paddedNumber| else start + 4;
      GroupsFrom(paddedNumber, start, end);
      var value := ChunkValue(paddedNumber[start..end]);
      CollectStep(paddedNumber, start, end, digits);
      digits := digits + [value];
      start := end;
    }
  }

  /** `numeric_to_postgres_binary`: the numeric send format of `d`. */
  method EncodeNumeric(d: Decimal) returns (buffer: seq<Byte>)
    requires ValidDecimal(d)
    ensures buffer == SerializeNumeric(ToWire(d))
  {
    var sign := if d.negative then NUMERIC_NEG else NUMERIC_POS;
    var weight := Weight(|d.integer|);
    var paddedNumber := PaddedNumber(d);
    var digits := CollectGroups(paddedNumber);
    var ndigits := |digits|;
    var dscale := |d.fraction|;

    assert ToWire(d) == NumericWire(weight, sign, dscale, digits);
    buffer := [];
    buffer := buffer + Int16Bytes(ndigits);
    buffer := buffer + Int16Bytes(weight);
    buffer := buffer + Int16Bytes(sign);
    buffer := buffer + Int16Bytes(dscale);
    buffer := WriteGroups(buffer, digits);
  }

  /** The writing loop of `numeric_to_postgres_binary`: each group as a big-endian int16. */
  method WriteGroups(buffer: seq<Byte>, digits: seq<int>) returns (out: seq<Byte>)
    requires forall i :: 0 <= i < |digits| ==> IsInt16(digits[i])
    ensures out == buffer + GroupsBytes(digits)
  {
    out := buffer;
    for i := 0 to |digits|
      invariant out == buffer + GroupsBytes(digits[..i])
    {
      assert digits[..i + 1][..i] == digits[..i];
      out := out + Int16Bytes(digits[i]);
    }
    assert digits[..|digits|] == digits;
  }

  // ---------------------------------------------------------------------
  // Worked values

  lemma DigitsValueOfFour(c: string)
    requires |c| == 4 && AllDigits(c)
    ensures DigitsValue(c)
            == 1000 * DigitValue(c[0]) + 100 * DigitValue(c[1]) + 10 * DigitValue(c[2]) + DigitValue(c[3])
  {
    assert c[..1][..0] == [];
    assert c[..2][..1] == c[..1];
    assert c[..3][..2] == c[..2];
    assert c[..4][..3] == c[..3] && c[..4] == c;
    assert DigitsValue(c[..1]) == DigitValue(c[0]);
    assert DigitsValue(c[..2]) == 10 * DigitValue(c[0]) + DigitValue(c[1]);
    assert DigitsValue(c[..3]) == 100 * DigitValue(c[0]) + 10 * DigitValue(c[1]) + DigitValue(c[2]);
  }

  /** 23.5: one integer group, the fraction digit 5 worth 5000 in its group. */
  lemma ExampleTwentyThreeAndAHalf()
    ensures ToWire(Decimal(false, "23", "5")) == NumericWire(0, NUMERIC_POS, 1, [23, 5000])
  {
    var s := PaddedNumber(Decimal(false, "23", "5"));
    assert s == "00235";
    assert GroupValue("0023") == 23 by {
      DigitsValueOfFour("0023");
    }
    assert Groups("5") == [5000] by {
      assert "5"[..1] == "5" && "5"[..0] == [];
      assert DigitsValue("5") == 5;
      assert "5"[1..] == [];
    }
    assert Groups(s) == [23] + Groups("5") by {
      assert s[..4] == "0023" && s[4..] == "5";
    }
  }

  /** -12.34: negative flag, scale 2, groups 12 and 3400. */
  lemma ExampleNegative()
    ensures ToWire(Decimal(true, "12", "34")) == NumericWire(0, NUMERIC_NEG, 2, [12, 3400])
  {
    var s := PaddedNumber(Decimal(true, "12", "34"));
    assert s == "001234";
    assert GroupValue("0012") == 12 by {
      DigitsValueOfFour("0012");
    }
    assert Groups("34") == [3400] by {
      assert "34"[..1] == "3" && "3"[..0] == [];
      assert DigitsValue("34") == 34;
      assert "34"[..2] == "34" && "34"[2..] == [];
    }
    assert Groups(s) == [12] + Groups("34") by {
      assert s[..4] == "0012" && s[4..] == "34";
    }
  }

  /** 0: a single zero group at weight 0; -0.0 keeps the negative flag. */
  lemma ExampleZero()
    ensures ToWire(Decimal(false, "0", "")) == NumericWire(0, NUMERIC_POS, 0, [0])
    ensures ToWire(Decimal(true, "0", "")) == NumericWire(0, NUMERIC_NEG, 0, [0])
  {
    var s := PaddedNumber(Decimal(false, "0", ""));
    assert s == "0000" by {
      assert Padding(1) == 3;
      assert Zeros(3) == "000";
    }
    DigitsValueOfFour(s);
    assert s[..4] == s && s[4..] == [];
    assert Groups(s) == [0];
  }
}
