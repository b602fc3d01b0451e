/** Binary numbers as strings in rad_util.py: `int2bin`, `bin2int` and the
    in-place ripple counter of `binary_range`. */
module BinaryStrings {

  function Pow2(n: nat): nat {
    if n == 0 then 1 else 2 * Pow2(n - 1)
  }

  // v * 2 ^ n
  function Shift(v: nat, n: nat): nat {
    if n == 0 then v else 2 * Shift(v, n - 1)
  }

  predicate IsBinary(s: string) {
    forall i | 0 <= i < |s| :: s[i] == '0' || s[i] == '1'
  }

  function Bit(c: char): nat {
    if c == '1' then 1 else 0
  }

  // The number a string of binary digits stands for.
  function Value(s: string): nat {
    if s == [] then 0 else 2 * Value(s[..|s| - 1]) + Bit(s[|s| - 1])
  }

  // ------------------------------------------------------------ conversions

  datatype Result<+T> = Ok(value: T) | ValueError | KeyError

  // The digits of hex(i), most significant first.
  function HexDigits(i: nat): seq<nat>
    decreases i
  {
    if i < 16 then [i] else HexDigits(i / 16) + [i % 16]
  }

  // The table hex2bin.
  function HexToBin(d: nat): string {
    ["0000", "0001", "0010", "0011", "0100", "0101", "0110", "0111",
     "1000", "1001", "1010", "1011", "1100", "1101", "1110", "1111"][d % 16]
  }

  function Join(digits: seq<nat>): string {
    if digits == [] then "" else Join(digits[..|digits| - 1]) + HexToBin(digits[|digits| - 1])
  }

  function Zeros(n: nat): string {
    if n == 0 then "" else Zeros(n - 1) + "0"
  }

  // Python's s[:-n] and s[-n:]; -0 is 0.
  function AllButLast(s: string, n: nat): string {
    if n == 0 || n > |s| then "" else s[..|s| - n]
  }

  function LastOnes(s: string, n: nat): string {
    if n == 0 || n > |s| then s else s[|s| - n..]
  }

  // Cut or pad to n digits; a digit 1 must not be cut off.
  function Fit(result: string, n: nat): Result<string> {
    if '1' in AllButLast(result, n) then ValueError
    else
      var last := LastOnes(result, n);
      Ok(Zeros(if |last| < n then n - |last| else 0) + last)
  }

  // hex of a negative number starts with "-0x", and 'x' is not in the table.
  function Int2Bin(i: int, n: nat): Result<string> {
    if i < 0 then KeyError else Fit(Join(HexDigits(i)), n)
  }

  // int(bin_string, 2), on strings of digits.
  function Bin2Int(s: string): Result<nat> {
    if s != [] && IsBinary(s) then Ok(Value(s)) else ValueError
  }

  // ------------------------------------------------------------------- lemmas

  lemma {:induction false} ValueBound(s: string)
    ensures Value(s) < Pow2(|s|)
  {
    if s != [] {
      ValueBound(s[..|s| - 1]);
    }
  }

  lemma {:induction false} ShiftSome(v: nat, n: nat)
    ensures v > 0 ==> Shift(v, n) >= Pow2(n)
    ensures v == 0 ==> Shift(v, n) == 0
    ensures v == 1 ==> Shift(v, n) == Pow2(n)
  {
    if n > 0 {
      ShiftSome(v, n - 1);
    }
  }

  lemma {:induction false} ValueJoin(s: string, t: string)
    ensures Value(s + t) == Shift(Value(s), |t|) + Value(t)
    decreases |t|
  {
    if t == [] {
      assert s + t == s;
    } else {
      var init := t[..|t| - 1];
      assert (s + t)[..|s + t| - 1] == s + init;
      ValueJoin(s, init);
    }
  }

  lemma {:induction false} ZerosValue(n: nat)
    ensures |Zeros(n)| == n && Value(Zeros(n)) == 0 && IsBinary(Zeros(n))
  {
    if n > 0 {
      ZerosValue(n - 1);
      assert Zeros(n)[..n - 1] == Zeros(n - 1);
    }
  }

  lemma {:induction false} ZeroMeansNoOnes(s: string)
    requires IsBinary(s)
    ensures Value(s) == 0 <==> '1' !in s
  {
    if s != [] {
      ZeroMeansNoOnes(s[..|s| - 1]);
      assert s == s[..|s| - 1] + [s[|s| - 1]];
    }
  }

  // Strings of the same length with the same value are the same.
  lemma {:induction false} ValueInjective(s: string, t: string)
    requires IsBinary(s) && IsBinary(t) && |s| == |t| && Value(s) == Value(t)
    ensures s == t
  {
    if s != [] {
      var n := |s| - 1;
      ValueInjective(s[..n], t[..n]);
      assert s == s[..n] + [s[n]] && t == t[..n] + [t[n]];
    }
  }

  lemma NibbleValue(d: nat)
    requires d < 16
    ensures var s := HexToBin(d);
            |s| == 4 && IsBinary(s) && s == [s[0]] + [s[1]] + [s[2]] + [s[3]]
            && 8 * Bit(s[0]) + 4 * Bit(s[1]) + 2 * Bit(s[2]) + Bit(s[3]) == d
  {
  }

  lemma FourBits(s: string)
    requires |s| == 4
    ensures Value(s) == 8 * Bit(s[0]) + 4 * Bit(s[1]) + 2 * Bit(s[2]) + Bit(s[3])
  {
    assert s[..3][..2] == s[..2] && s[..2][..1] == s[..1] && s[..1][..0] == [];
    assert Value(s[..1]) == Bit(s[0]);
    assert Value(s[..2]) == 2 * Value(s[..1]) + Bit(s[1]);
    assert Value(s[..3]) == 2 * Value(s[..2]) + Bit(s[2]);
  }

  lemma NibbleIs(d: nat)
    requires d < 16
    ensures |HexToBin(d)| == 4 && IsBinary(HexToBin(d)) && Value(HexToBin(d)) == d
  {
    NibbleValue(d);
    FourBits(HexToBin(d));
  }

  lemma ShiftFour(v: nat)
    ensures Shift(v, 4) == 16 * v
  {
    assert Shift(v, 3) == 2 * Shift(v, 2) && Shift(v, 2) == 2 * Shift(v, 1) && Shift(v, 1) == 2 * Shift(v, 0);
  }

  lemma JoinOneMore(digits: seq<nat>, d: nat)
    requires d < 16 && IsBinary(Join(digits))
    ensures IsBinary(Join(digits + [d])) && |Join(digits + [d])| >= 4
    ensures Value(Join(digits + [d])) == 16 * Value(Join(digits)) + d
  {
    NibbleIs(d);
    assert (digits + [d])[..|digits|] == digits;
    ValueJoin(Join(digits), HexToBin(d));
    ShiftFour(Value(Join(digits)));
  }

  lemma {:induction false} HexValue(i: nat)
    ensures var s := Join(HexDigits(i));
            Value(s) == i && IsBinary(s) && |s| >= 4
    decreases i
  {
    if i < 16 {
      assert [] + [i] == [i];
      JoinOneMore([], i);
    } else {
      HexValue(i / 16);
      JoinOneMore(HexDigits(i / 16), i % 16);
    }
  }

  lemma SplitValue(s: string, n: nat)
    requires IsBinary(s) && 1 <= n <= |s|
    ensures s == AllButLast(s, n) + LastOnes(s, n) && |LastOnes(s, n)| == n
    ensures '1' !in AllButLast(s, n) <==> Value(s) < Pow2(n)
    ensures '1' !in AllButLast(s, n) ==> Value(LastOnes(s, n)) == Value(s)
  {
    var high, low := AllButLast(s, n), LastOnes(s, n);
    ValueJoin(high, low);
    ZeroMeansNoOnes(high);
    ValueBound(low);
    ShiftSome(Value(high), n);
  }

  lemma FitExact(result: string, n: nat)
    requires IsBinary(result) && n >= 1
    ensures Fit(result, n).Ok? <==> Value(result) < Pow2(n)
    ensures Fit(result, n).Ok? ==>
              var s := Fit(result, n).value; |s| == n && IsBinary(s) && Value(s) == Value(result)
  {
    if n <= |result| {
      SplitValue(result, n);
      assert Zeros(0) + LastOnes(result, n) == LastOnes(result, n);
    } else {
      ValueBound(result);
      Pow2Grows(|result|, n);
      PadValue(n - |result|, result);
    }
  }

  // int2bin gives the number exactly n digits, or refuses it when they do not
  // suffice.
  lemma Int2BinExact(i: nat, n: nat)
    requires n >= 1
    ensures Int2Bin(i, n).Ok? <==> i < Pow2(n)
    ensures Int2Bin(i, n).Ok? ==>
              var s := Int2Bin(i, n).value; |s| == n && IsBinary(s) && Value(s) == i
  {
    HexValue(i);
    FitExact(Join(HexDigits(i)), n);
  }

  lemma PadValue(k: nat, s: string)
    requires IsBinary(s)
    ensures var padded := Zeros(k) + s;
            |padded| == k + |s| && IsBinary(padded) && Value(padded) == Value(s)
  {
    ZerosValue(k);
    ValueJoin(Zeros(k), s);
    ShiftSome(0, |s|);
  }

  lemma {:induction false} Pow2Grows(m: nat, n: nat)
    requires m <= n
    ensures Pow2(m) <= Pow2(n)
  {
    if m < n {
      Pow2Grows(m, n - 1);
    }
  }

  // With no width nothing is cut off or refused.
  lemma Int2BinUnbounded(i: nat)
    ensures Int2Bin(i, 0) == Ok(Join(HexDigits(i))) && Value(Join(HexDigits(i))) == i
  {
    HexValue(i);
    assert Zeros(0) + Join(HexDigits(i)) == Join(HexDigits(i));
  }

  // i >> m
  function ShiftedRight(i: nat, m: nat): nat {
    if m == 0 then i else ShiftedRight(i / 2, m - 1)
  }

  lemma {:induction false} ValueDigits(s: string, j: nat)
    requires IsBinary(s) && j < |s|
    ensures ShiftedRight(Value(s), |s| - 1 - j) % 2 == (if s[j] == '1' then 1 else 0)
    decreases |s|
  {
    if j < |s| - 1 {
      ValueDigits(s[..|s| - 1], j);
    }
  }

  // The j-th of n digits is the bit of weight 2 ^ (n - 1 - j).
  lemma Int2BinDigits(i: nat, n: nat, j: nat)
    requires i < Pow2(n) && j < n
    ensures Int2Bin(i, n).Ok? && |Int2Bin(i, n).value| == n
    ensures Int2Bin(i, n).value[j] == (if ShiftedRight(i, n - 1 - j) % 2 == 1 then '1' else '0')
  {
    Int2BinExact(i, n);
    ValueDigits(Int2Bin(i, n).value, j);
  }

  lemma ConversionsRoundTrip(i: nat, n: nat)
    requires n >= 1 && i < Pow2(n)
    ensures Int2Bin(i, n).Ok? && Bin2Int(Int2Bin(i, n).value) == Ok(i)
  {
    Int2BinExact(i, n);
  }

  lemma ConversionsRoundTripBack(s: string)
    requires s != [] && IsBinary(s)
    ensures Bin2Int(s).Ok? && Int2Bin(Bin2Int(s).value, |s|) == Ok(s)
  {
    ValueBound(s);
    Int2BinExact(Value(s), |s|);
    ValueInjective(Int2Bin(Value(s), |s|).value, s);
  }

  // -------------------------------------------------------- the ripple counter

  // The value of a counter whose lowest bit comes first.
  function LowFirst(v: seq<char>): nat {
    if v == [] then 0 else LowFirst(v[..|v| - 1]) + if v[|v| - 1] == '1' then Pow2(|v| - 1) else 0
  }

  function Reversed(v: seq<char>): (r: seq<char>)
    ensures |r| == |v| && forall k | 0 <= k < |v| :: r[k] == v[|v| - 1 - k]
  {
    if v == [] then [] else [v[|v| - 1]] + Reversed(v[..|v| - 1])
  }

  lemma {:induction false} ReversedValue(v: seq<char>)
    ensures Value(Reversed(v)) == LowFirst(v)
  {
    if v != [] {
      var init, last := v[..|v| - 1], v[|v| - 1];
      ReversedValue(init);
      ValueJoin([last], Reversed(init));
      ShiftSome(Bit(last), |init|);
      assert Value([last]) == Bit(last) by {
        assert [last][..0] == [];
      }
    }
  }

  lemma {:induction false} LowFirstBound(v: seq<char>)
    ensures LowFirst(v) < Pow2(|v|)
  {
    if v != [] {
      LowFirstBound(v[..|v| - 1]);
    }
  }

  lemma {:induction false} FlipBit(v: seq<char>, i: nat)
    requires i < |v| && v[i] == '0'
    ensures LowFirst(v[i := '1']) == LowFirst(v) + Pow2(i)
  {
    var n := |v| - 1;
    if i == n {
      assert v[i := '1'][..n] == v[..n];
    } else {
      FlipBit(v[..n], i);
      assert v[i := '1'][..n] == v[..n][i := '1'];
    }
  }

  // A carry pending at digit i, of weight 2 ^ i.
  function Carry(toggle: int, i: nat): nat {
    if toggle == 1 then Pow2(i) else 0
  }

  lemma RippleOne(v: seq<char>, i: nat)
    requires i < |v| && IsBinary(v)
    ensures v[i] == '0' ==> LowFirst(v[i := '1']) == LowFirst(v) + Pow2(i)
    ensures v[i] == '1' ==> LowFirst(v[i := '0']) + Pow2(i + 1) == LowFirst(v) + Pow2(i)
  {
    if v[i] == '0' {
      FlipBit(v, i);
    } else {
      FlipBit(v[i := '0'], i);
      assert v[i := '0'][i := '1'] == v;
    }
  }

  // One increment in place.  toggle[i] says that a carry comes into digit i; a
  // carry out of the last digit ends up in toggle[bits].
  method Increment(v: array<char>, toggle: array<int>)
    requires v.Length >= 1 && toggle.Length == v.Length + 1 && IsBinary(v[..])
    requires toggle[0] == 1 && forall k | 1 <= k < toggle.Length :: toggle[k] == 0
    modifies v, toggle
    ensures IsBinary(v[..])
    ensures LowFirst(v[..]) == if old(LowFirst(v[..])) + 1 < Pow2(v.Length) then old(LowFirst(v[..])) + 1 else 0
    ensures toggle[v.Length] == if old(LowFirst(v[..])) + 1 < Pow2(v.Length) then 0 else 1
  {
    var bits := v.Length;
    ghost var next := LowFirst(v[..]) + 1;
    LowFirstBound(v[..]);
    var i := 0;
    while i < bits && toggle[i] == 1
      invariant 0 <= i <= bits
      invariant IsBinary(v[..])
      invariant toggle[i] == 0 || toggle[i] == 1
      invariant forall k | i < k <= bits :: toggle[k] == 0
      invariant LowFirst(v[..]) + Carry(toggle[i], i) == next
    {
      ghost var before := v[..];
      RippleOne(before, i);
      if v[i] == '0' {
        v[i] := '1';
        toggle[i + 1] := 0;
      } else {
        v[i] := '0';
        toggle[i + 1] := 1;
      }
      assert v[..] == before[i := v[i]];
      i := i + 1;
    }
    LowFirstBound(v[..]);
  }

  // The k-th string is the one for k.
  ghost predicate Listed(l: seq<string>, bits: nat) {
    forall k | 0 <= k < |l| :: Int2Bin(k, bits) == Ok(l[k]) && Bin2Int(l[k]) == Ok(k)
  }

  // What was listed so far, against the counter v and its carry out.
  ghost predicate CountedTo(l: seq<string>, v: seq<char>, carryOut: int) {
    && v != [] && IsBinary(v) && Listed(l, |v|)
    && |l| == if carryOut == 1 then Pow2(|v|) else LowFirst(v)
  }

  lemma CountedMore(l: seq<string>, v: seq<char>, carryOut: int)
    requires CountedTo(l, v, carryOut) && carryOut != 1
    ensures Listed(l + [Reversed(v)], |v|) && |l + [Reversed(v)]| == LowFirst(v) + 1 <= Pow2(|v|)
  {
    CounterString(v);
    LowFirstBound(v);
  }

  // All strings of the given width, in order.
  method BinaryRange(bits: nat) returns (l: seq<string>)
    ensures bits == 0 ==> l == []
    ensures bits >= 1 ==> |l| == Pow2(bits)
    ensures bits >= 1 ==> Listed(l, bits)
  {
    l := [];
    var v := new char[bits](_ => '0');
    var toggle := new int[bits + 1](i => if i == 0 then 1 else 0);
    AllZero(v[..]);
    while toggle[bits] != 1
      invariant fresh(v) && fresh(toggle) && v.Length == bits && toggle.Length == bits + 1
      invariant if bits == 0 then toggle[bits] == 1 && l == [] else CountedTo(l, v[..], toggle[bits])
      decreases Pow2(bits) - |l|
    {
      CountedMore(l, v[..], toggle[bits]);
      l := l + [Reversed(v[..])];
      toggle := new int[bits + 1](i => if i == 0 then 1 else 0);
      Increment(v, toggle);
    }
  }

  lemma {:induction false} AllZero(v: seq<char>)
    requires forall i | 0 <= i < |v| :: v[i] == '0'
    ensures LowFirst(v) == 0
  {
    if v != [] {
      AllZero(v[..|v| - 1]);
    }
  }

  // The string listed is the one int2bin gives for the counter's value.
  lemma CounterString(v: seq<char>)
    requires v != [] && IsBinary(v)
    ensures Int2Bin(LowFirst(v), |v|) == Ok(Reversed(v)) && Bin2Int(Reversed(v)) == Ok(LowFirst(v))
  {
    ReversedValue(v);
    ConversionsRoundTripBack(Reversed(v));
  }
}
