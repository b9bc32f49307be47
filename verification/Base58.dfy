/** Base58 text of byte strings: the in-place digit loops and the two round trips. */
module Base58 {
  import opened Arithmetic
  import opened Common
  import opened Radix

  // ---------- the alphabet ----------

  /** The characters: digits and letters without 0, I, O and l. */
  function Alphabet(d: nat): char
    requires d < 58
  {
    (if d < 9 then '1' as int + d
     else if d < 17 then 'A' as int + (d - 9)
     else if d < 22 then 'J' as int + (d - 17)
     else if d < 33 then 'P' as int + (d - 22)
     else if d < 44 then 'a' as int + (d - 33)
     else 'm' as int + (d - 44)) as char
  }

  /** The inverse table: a digit, or -1. */
  function MapBase58(c: char): (r: int)
    ensures -1 <= r < 58
  {
    if '1' <= c <= '9' then c as int - '1' as int
    else if 'A' <= c <= 'H' then c as int - 'A' as int + 9
    else if 'J' <= c <= 'N' then c as int - 'J' as int + 17
    else if 'P' <= c <= 'Z' then c as int - 'P' as int + 22
    else if 'a' <= c <= 'k' then c as int - 'a' as int + 33
    else if 'm' <= c <= 'z' then c as int - 'm' as int + 44
    else -1
  }

  predicate IsSpace(c: char) {
    c == ' ' || c == '\n' || c == '\t' || c == '\r' || c as int == 12 || c as int == 11
  }

  lemma AlphabetInverse(d: nat)
    requires d < 58
    ensures MapBase58(Alphabet(d)) == d && !IsSpace(Alphabet(d)) && (Alphabet(d) == '1' <==> d == 0)
  {
  }

  lemma MapInverse(c: char)
    requires MapBase58(c) != -1
    ensures Alphabet(MapBase58(c)) == c && !IsSpace(c) && (c == '1' <==> MapBase58(c) == 0)
  {
  }

  /** The alphabet is the digits and letters, without four that look alike, in ascending order. */
  lemma AlphabetIs(c: char, d: nat, e: nat)
    requires d < e < 58
    ensures Alphabet(d) < Alphabet(e)
    ensures MapBase58(c) != -1 <==> ('0' <= c <= '9' || 'A' <= c <= 'Z' || 'a' <= c <= 'z') && c != '0' && c != 'I' && c != 'O' && c != 'l'
    ensures MapBase58(Alphabet(d)) != -1 && MapBase58(Alphabet(e)) != -1
  {
    AlphabetInverse(d);
    AlphabetInverse(e);
  }

  // ---------- the digit loop ----------

  /** The digits from the end that are in use, and zeroes before them. */
  ghost predicate InUse(d: seq<nat>, length: nat) {
    && length <= |d|
    && (forall i :: 0 <= i < |d| - length ==> d[i] == 0)
    && (length > 0 ==> d[|d| - length] != 0)
  }

  /** The digits in use are the shortest representation. */
  lemma InUseShortest(d: seq<nat>, length: nat, base: nat)
    requires InUse(d, length) && Digits(d, base) && base > 1
    ensures length <= |d| && d[|d| - length..] == Shortest(Value(d, base), base)
  {
    LeadingZeros(d, |d| - length, base);
    ShortestOfValue(d[|d| - length..], base);
  }

  /** carry + mult * x, kept folded in the loops below. */
  function CarryIn(carry: nat, mult: nat, x: nat): nat {
    carry + mult * x
  }

  /** One digit of the loop. */
  lemma CarryStep(s: nat, carry: nat, x: nat, mult: nat, base: nat, p: nat, v: nat, add: nat)
    requires base > 0 && s + carry * p == CarryIn(add, mult, v)
    ensures var n := CarryIn(carry, mult, x);
            (n % base) * p + s + (n / base) * (base * p) == CarryIn(add, mult, x * p + v)
  {
    var n := carry + mult * x;
    var q, r := n / base, n % base;
    assert n == q * base + r;
    assert n * p == q * (base * p) + r * p by {
      assert (q * base + r) * p == (q * base) * p + r * p;
      assert (q * base) * p == q * (base * p);
    }
    assert n * p == carry * p + (mult * x) * p;
    assert (x * p + v) * mult == (x * p) * mult + v * mult;
    assert (x * p) * mult == (mult * x) * p;
  }

  lemma CarryOut(n: nat, base: nat)
    requires base > 0
    ensures 0 <= n / base && 0 <= n % base < base && (n / base == 0 ==> n % base == n)
  {
    DivBounds(n, base);
    assert n == (n / base) * base + n % base;
  }

  /**
   * The inner loops of encoding and decoding: multiply the number in the buffer by mult and add a
   * digit, in place from the end. If the result fits, no carry is left.
   */
  method MultiplyAdd(buf: array<nat>, length: nat, mult: nat, add: nat, base: nat) returns (used: nat)
    requires base > 1 && mult > 0 && Digits(buf[..], base) && InUse(buf[..], length)
    requires Value(buf[..], base) * mult + add < Pow(base, buf.Length)
    modifies buf
    ensures Digits(buf[..], base) && InUse(buf[..], used)
    ensures Value(buf[..], base) == old(Value(buf[..], base)) * mult + add
  {
    hide Value, Pow, CarryIn;
    ghost var was := buf[..];
    var size := buf.Length;
    var carry, i := add, 0;
    StartLoop(was, mult, add, base);
    assert buf[size..] == was[size..] == [];
    while (carry != 0 || i < length) && i < buf.Length
      invariant 0 <= i <= size && carry >= 0
      invariant buf[..size - i] == was[..size - i] && Digits(buf[..], base)
      invariant Value(buf[size - i..], base) + carry * Pow(base, i) == CarryIn(add, mult, Value(was[size - i..], base))
      invariant i > length && carry == 0 ==> buf[size - i] != 0
      decreases size - i
    {
      ghost var k := size - 1 - i;
      ghost var suffix, before := buf[size - i..], carry;
      assert buf[k] == buf[..size - i][k] == was[k];
      carry := CarryIn(carry, mult, buf[size - 1 - i]);
      CarryOut(carry, base);
      LoopStep(suffix, was, k, before, mult, add, base);
      buf[size - 1 - i] := carry % base;
      carry := carry / base;
      assert buf[k..] == [buf[k]] + suffix && buf[..k] == was[..k];
      if i >= length { Untouched(was, length, k, before, mult); }
      i := i + 1;
    }
    used := i;
    assert forall j :: 0 <= j < size - i ==> buf[j] == buf[..size - i][j] == was[..size - i][j] == was[j];
    FoldCarry(add, mult, Value(was, base));
    FinishLoop(buf[..], was, i, length, carry, mult, add, base);
    assert carry == 0;
  }

  lemma FoldCarry(carry: nat, mult: nat, x: nat)
    ensures CarryIn(carry, mult, x) == x * mult + carry
  {
  }

  lemma StartLoop(was: seq<nat>, mult: nat, add: nat, base: nat)
    ensures Value(was[|was|..], base) + add * Pow(base, 0) == CarryIn(add, mult, Value(was[|was|..], base))
  {
    assert was[|was|..] == [];
    assert mult * 0 == 0;
  }

  lemma LoopStep(suffix: seq<nat>, was: seq<nat>, k: nat, carry: nat, mult: nat, add: nat, base: nat)
    requires base > 0 && k < |was| && |suffix| == |was| - 1 - k
    requires Value(suffix, base) + carry * Pow(base, |suffix|) == CarryIn(add, mult, Value(was[k + 1..], base))
    ensures var n := CarryIn(carry, mult, was[k]);
            0 <= n / base && Value([n % base] + suffix, base) + (n / base) * Pow(base, |suffix| + 1) == CarryIn(add, mult, Value(was[k..], base))
  {
    hide Value;
    var n, p := CarryIn(carry, mult, was[k]), Pow(base, |suffix|);
    CarryOut(n, base);
    ValuePrepend(n % base, suffix, base);
    assert was[k..] == [was[k]] + was[k + 1..];
    ValuePrepend(was[k], was[k + 1..], base);
    CarryStep(Value(suffix, base), carry, was[k], mult, base, p, Value(was[k + 1..], base), add);
  }

  lemma Untouched(was: seq<nat>, length: nat, k: nat, carry: nat, mult: nat)
    requires InUse(was, length) && k < |was| - length
    ensures CarryIn(carry, mult, was[k]) == carry
  {
    assert was[k] == 0;
    assert mult * 0 == 0;
  }

  lemma NoCarry(v: nat, carry: nat, p: nat)
    ensures v + carry * p < p ==> carry == 0
    ensures carry == 0 ==> carry * p == 0
  {
    if carry > 0 { MulMonotone(1, carry, p); }
  }

  lemma FinishLoop(now: seq<nat>, was: seq<nat>, i: nat, length: nat, carry: nat, mult: nat, add: nat, base: nat)
    requires |now| == |was| && i <= |was| && base > 1 && mult > 0 && Digits(now, base) && Digits(was, base) && InUse(was, length)
    requires (carry == 0 && i >= length) || i == |was|
    requires forall j :: 0 <= j < |was| - i ==> now[j] == was[j]
    requires Value(now[|was| - i..], base) + carry * Pow(base, i) == CarryIn(add, mult, Value(was[|was| - i..], base))
    requires i > length && carry == 0 ==> now[|was| - i] != 0
    requires CarryIn(add, mult, Value(was, base)) < Pow(base, |was|)
    ensures carry == 0 && InUse(now, i) && Value(now, base) == CarryIn(add, mult, Value(was, base))
  {
    hide Value, Pow, CarryIn, Digits;
    var k := |was| - i;
    assert i == |was| ==> was[k..] == was;
    NoCarry(Value(now[k..], base), carry, Pow(base, i));
    LeadingZeros(was, k, base);
    LeadingZeros(now, k, base);
    if i == length && i > 0 {
      DigitsTail(now, k, base);
      DigitsTail(was, k, base);
      StaysLeading(now[k..], was[k..], mult, add, base);
    }
  }

  lemma DigitsTail(d: seq<nat>, k: nat, base: nat)
    requires k <= |d| && Digits(d, base)
    ensures Digits(d[k..], base)
  {
  }

  lemma StaysLeading(now: seq<nat>, was: seq<nat>, mult: nat, add: nat, base: nat)
    requires |now| == |was| > 0 && base > 1 && mult > 0 && Digits(now, base) && Digits(was, base) && was[0] != 0
    requires Value(now, base) == CarryIn(add, mult, Value(was, base))
    ensures now[0] != 0
  {
    hide Value, Pow;
    LeadingDigit(was, base);
    LeadingDigit(now, base);
    MulMonotone(1, mult, Value(was, base));
  }

  // ---------- what encoding and decoding compute ----------

  /** How many copies of x a sequence starts with. */
  function LeadingCount<T(==)>(s: seq<T>, x: T): (n: nat)
    ensures n <= |s| && (forall i :: 0 <= i < n ==> s[i] == x) && (n < |s| ==> s[n] != x)
  {
    if s != [] && s[0] == x then 1 + LeadingCount(s[1..], x) else 0
  }

  lemma {:induction false} LeadingCountIs<T>(s: seq<T>, x: T, n: nat)
    requires n <= |s| && (forall i :: 0 <= i < n ==> s[i] == x) && (n < |s| ==> s[n] != x)
    ensures LeadingCount(s, x) == n
  {
    if n > 0 { LeadingCountIs(s[1..], x, n - 1); }
  }

  function Text(d: seq<nat>): (r: string)
    requires Digits(d, 58)
    ensures |r| == |d|
  {
    seq(|d|, i requires 0 <= i < |d| => Alphabet(d[i]))
  }

  predicate AllBase58(s: string) {
    forall i :: 0 <= i < |s| ==> MapBase58(s[i]) != -1
  }

  function FromText(s: string): (r: seq<nat>)
    requires AllBase58(s)
    ensures |r| == |s| && Digits(r, 58)
  {
    seq(|s|, i requires 0 <= i < |s| => MapBase58(s[i]))
  }

  function Ones(n: nat): (r: string)
    ensures |r| == n && forall i :: 0 <= i < n ==> r[i] == '1'
  {
    seq(n, _ => '1')
  }

  function Zeros(n: nat): (r: seq<nat>)
    ensures |r| == n && forall i :: 0 <= i < n ==> r[i] == 0
  {
    seq(n, _ => 0)
  }

  /** A '1' for every leading zero byte, then the rest as a base-58 number. */
  function Encoded(b: seq<nat>): string {
    var z := LeadingCount(b, 0);
    Ones(z) + Text(Shortest(Value(b[z..], 256), 58))
  }

  /** The position of the first character that is not a space, and the one after the last. */
  function Start(s: string): (n: nat)
    ensures n <= |s| && (forall i :: 0 <= i < n ==> IsSpace(s[i])) && (n < |s| ==> !IsSpace(s[n]))
  {
    if s != [] && IsSpace(s[0]) then 1 + Start(s[1..]) else 0
  }

  function End(s: string): (n: nat)
    ensures n <= |s| && (forall i :: n <= i < |s| ==> IsSpace(s[i])) && (n > 0 ==> !IsSpace(s[n - 1]))
  {
    if s != [] && IsSpace(s[|s| - 1]) then End(s[..|s| - 1]) else |s|
  }

  function Trim(s: string): string {
    if Start(s) >= End(s) then [] else s[Start(s)..End(s)]
  }

  function Bytes(t: string): seq<nat>
    requires AllBase58(t)
  {
    var z := LeadingCount(t, '1');
    Zeros(z) + Shortest(Value(FromText(t[z..]), 58), 256)
  }

  /** Surrounding spaces are ignored; everything else must be base-58 characters, and the bytes must not exceed the limit. */
  function Decoded(s: string, max: int): Option<seq<nat>> {
    var t := Trim(s);
    if !AllBase58(t) || (Bytes(t) != [] && |Bytes(t)| > max) then None else Some(Bytes(t))
  }

  // ---------- encoding ----------

  /** Skip leading zeroes of a number from a given digit on. */
  method StripZeros(buf: array<nat>, start: nat) returns (it: nat)
    requires start <= buf.Length
    ensures start <= it <= buf.Length && (forall j :: start <= j < it ==> buf[j] == 0) && (it < buf.Length ==> buf[it] != 0)
  {
    it := start;
    while it < buf.Length && buf[it] == 0
      invariant start <= it <= buf.Length && forall j :: start <= j < it ==> buf[j] == 0
    {
      it := it + 1;
    }
  }

  /** The number read so far always fits in the buffer. */
  lemma EncodeFits(input: seq<nat>, k: nat)
    requires Digits(input, 256) && k < |input|
    ensures Value(input[..k], 256) * 256 + input[k] == Value(input[..k + 1], 256) < Pow(58, |input| * 138 / 100 + 1)
  {
    hide Pow, Value;
    ValueAppend(input[..k], input[k], 256);
    assert input[..k + 1] == input[..k] + [input[k]];
    ValueBound(input[..k + 1], 256);
    PowMonotone(256, k + 1, |input|);
    EncodeBuffer(|input|);
  }

  lemma ValueAppend(d: seq<nat>, x: nat, base: nat)
    ensures Value(d + [x], base) == Value(d, base) * base + x
  {
    assert (d + [x])[..|d|] == d;
  }

  /** The main loop of EncodeBase58: the bytes as a base-58 number; no carry is ever left. */
  method ToBase58(input: seq<nat>) returns (buf: array<nat>, length: nat)
    requires Digits(input, 256)
    ensures fresh(buf) && Digits(buf[..], 58) && InUse(buf[..], length) && Value(buf[..], 58) == Value(input, 256)
  {
    hide Pow, Value;
    buf := new nat[|input| * 138 / 100 + 1](_ => 0);
    length := 0;
    ValueZeros(buf[..], 58);
    ValueZeros(input[..0], 256);
    for k := 0 to |input|
      invariant fresh(buf) && buf.Length == |input| * 138 / 100 + 1
      invariant Digits(buf[..], 58) && InUse(buf[..], length) && Value(buf[..], 58) == Value(input[..k], 256)
    {
      EncodeFits(input, k);
      length := MultiplyAdd(buf, length, 256, input[k], 58);
    }
    assert input[..|input|] == input;
  }

  /** EncodeBase58. */
  method EncodeBase58(input: seq<nat>) returns (str: string)
    requires Digits(input, 256)
    ensures str == Encoded(input)
  {
    hide Pow, Value, Alphabet, LeadingCount, Shortest, Text;
    var zeroes := 0;
    while zeroes < |input| && input[zeroes] == 0
      invariant 0 <= zeroes <= |input| && forall i :: 0 <= i < zeroes ==> input[i] == 0
    {
      zeroes := zeroes + 1;
    }
    LeadingCountIs(input, 0, zeroes);
    var buf, length := ToBase58(input[zeroes..]);
    var it := StripZeros(buf, buf.Length - length);
    assert buf[..][it..] == buf[it..];
    InUseShortest(buf[..], buf.Length - it, 58);
    str := Ones(zeroes);
    str := AppendText(str, buf, it);
  }

  /** The translation of the significant digits into characters. */
  method AppendText(start: string, buf: array<nat>, it: nat) returns (str: string)
    requires it <= buf.Length && Digits(buf[it..], 58)
    ensures str == start + Text(buf[it..])
  {
    hide Alphabet;
    str := start;
    ghost var digits := buf[it..];
    for k := it to buf.Length
      invariant str == start + Text(digits[..k - it])
    {
      assert digits[k - it] == buf[k];
      assert Text(digits[..k + 1 - it]) == Text(digits[..k - it]) + [Alphabet(buf[k])];
      str := str + [Alphabet(buf[k])];
    }
    assert digits[..buf.Length - it] == digits;
  }

  // ---------- decoding ----------

  method SkipSpaces(s: string, from: nat) returns (p: nat)
    requires from <= |s|
    ensures from <= p <= |s| && (forall i :: from <= i < p ==> IsSpace(s[i])) && (p < |s| ==> !IsSpace(s[p]))
  {
    p := from;
    while p < |s| && IsSpace(s[p])
      invariant from <= p <= |s| && forall i :: from <= i < p ==> IsSpace(s[i])
    {
      p := p + 1;
    }
  }

  lemma {:induction false} StartIs(s: string, a: nat)
    requires a <= |s| && (forall i :: 0 <= i < a ==> IsSpace(s[i])) && (a < |s| ==> !IsSpace(s[a]))
    ensures Start(s) == a
  {
    hide IsSpace;
    if a > 0 { StartIs(s[1..], a - 1); }
  }

  lemma {:induction false} EndIs(s: string, e: nat)
    requires e <= |s| && (forall i :: e <= i < |s| ==> IsSpace(s[i])) && (e > 0 ==> !IsSpace(s[e - 1]))
    ensures End(s) == e
    decreases |s|
  {
    hide IsSpace;
    if e < |s| { EndIs(s[..|s| - 1], e); }
  }

  /** A character between the first non-space and some later non-space, or itself not a space, is kept by trimming. */
  lemma TrimKeeps(s: string, i: nat, j: nat)
    requires Start(s) <= i <= j < |s| && !IsSpace(s[j])
    ensures i < End(s) && Start(s) < End(s) && Trim(s) == s[Start(s)..End(s)]
  {
    hide IsSpace, Start, End;
  }

  /** A character that is not base-58 makes the text undecodable. */
  lemma Rejects(s: string, i: nat, j: nat, max: int)
    requires Start(s) <= i <= j < |s| && !IsSpace(s[j]) && MapBase58(s[i]) == -1
    ensures Decoded(s, max) == None
  {
    hide IsSpace, MapBase58, Bytes;
    TrimKeeps(s, i, j);
    var k := i - Start(s);
    assert MapBase58(Trim(s)[k]) == -1;
  }

  /** What trimming leaves when only spaces follow. */
  lemma TrimIs(s: string, q: nat)
    requires Start(s) <= q <= |s| && (forall i :: Start(s) <= i < q ==> !IsSpace(s[i])) && (forall i :: q <= i < |s| ==> IsSpace(s[i]))
    ensures Trim(s) == s[Start(s)..q]
  {
    hide IsSpace, Start, End;
    if q > Start(s) {
      EndIs(s, q);
    } else {
      EndIs(s, 0);
    }
  }

  /** The characters read so far: z ones and then digits, none of which is a leading one. */
  ghost predicate ReadSoFar(s: string, z: nat, p: nat) {
    var a := Start(s);
    && a + z <= p <= |s|
    && (forall i :: a <= i < p ==> MapBase58(s[i]) != -1)
    && (forall i :: a <= i < a + z ==> s[i] == '1')
    && (a + z < |s| ==> s[a + z] != '1')
  }

  function Prefix(s: string, lo: nat, hi: nat): (r: seq<nat>)
    requires lo <= hi <= |s| && forall i :: lo <= i < hi ==> MapBase58(s[i]) != -1
    ensures |r| == hi - lo && Digits(r, 58)
  {
    FromText(s[lo..hi])
  }

  /** Whatever follows, the bytes are at least those of the part read. */
  lemma AtLeastRead(s: string, z: nat, p: nat)
    requires ReadSoFar(s, z, p) && p > Start(s) && AllBase58(Trim(s))
    ensures Bytes(Trim(s)) != [] && |Bytes(Trim(s))| >= z + |Shortest(Value(Prefix(s, Start(s) + z, p), 58), 256)|
  {
    hide Value, MapBase58, IsSpace, Pow, Start, End, Trim, LeadingCount, Shortest, FromText;
    ReadPart(s, z, p);
    var a, t := Start(s), Trim(s);
    var d, n := FromText(t[z..]), p - a - z;
    ValueSplit(d, n, 58);
    GrowsByPower(Value(d[..n], 58), Pow(58, |d| - n), Value(d[n..], 58));
    ShortestMonotone(Value(d[..n], 58), Value(d, 58), 256);
    if z == 0 { FirstDigit(t, d); }
  }

  lemma ReadPart(s: string, z: nat, p: nat)
    requires ReadSoFar(s, z, p) && p > Start(s) && AllBase58(Trim(s))
    ensures var t, n := Trim(s), p - Start(s) - z;
            && LeadingCount(t, '1') == z && t != [] && (z == 0 ==> t[0] != '1')
            && n <= |t| - z && FromText(t[z..])[..n] == Prefix(s, Start(s) + z, p)
  {
    hide MapBase58, IsSpace, Start, End, Trim, LeadingCount;
    var a, t := Start(s), Trim(s);
    NotSpace(s[p - 1]);
    TrimKeeps(s, p - 1, p - 1);
    LeadingCountIs(t, '1', z);
    var d, n := FromText(t[z..]), p - a - z;
    forall i | 0 <= i < n ensures d[i] == Prefix(s, a + z, p)[i] {
      assert t[z..][i] == s[a + z..p][i] == s[a + z + i];
    }
  }

  lemma NotSpace(c: char)
    requires MapBase58(c) != -1
    ensures !IsSpace(c)
  {
  }

  lemma GrowsByPower(v: nat, p: nat, rest: nat)
    requires p > 0
    ensures v <= v * p + rest
  {
    MulMonotone(1, p, v);
  }

  /** A text that does not start with a one has a non-zero value. */
  lemma FirstDigit(t: string, d: seq<nat>)
    requires AllBase58(t) && t != [] && t[0] != '1' && d == FromText(t[0..])
    ensures Shortest(Value(d, 58), 256) != []
  {
    hide Value;
    MapInverse(t[0]);
    assert t[0..] == t;
    LeadingDigit(d, 58);
  }

  lemma NothingRead(s: string, lo: nat)
    requires lo <= |s|
    ensures Value(Prefix(s, lo, lo), 58) == 0
  {
    ValueZeros(Prefix(s, lo, lo), 58);
  }

  /** The number read so far always fits in the buffer. */
  lemma DecodeFits(s: string, lo: nat, p: nat)
    requires lo <= p < |s| && forall i :: lo <= i <= p ==> MapBase58(s[i]) != -1
    ensures Value(Prefix(s, lo, p), 58) * 58 + MapBase58(s[p]) == Value(Prefix(s, lo, p + 1), 58) < Pow(256, (|s| - lo) * 733 / 1000 + 1)
  {
    hide Pow, Value, MapBase58;
    var d := Prefix(s, lo, p);
    assert Prefix(s, lo, p + 1) == d + [MapBase58(s[p])];
    ValueAppend(d, MapBase58(s[p]), 58);
    ValueBound(Prefix(s, lo, p + 1), 58);
    PowMonotone(58, p + 1 - lo, |s| - lo);
    DecodeBuffer(|s| - lo);
  }

  lemma FreshBuffer(d: seq<nat>, base: nat)
    requires base > 0 && forall i :: 0 <= i < |d| ==> d[i] == 0
    ensures Digits(d, base) && InUse(d, 0) && Value(d, base) == 0
  {
    ValueZeros(d, base);
  }

  lemma TooLong(s: string, z: nat, p: nat, max: int)
    requires ReadSoFar(s, z, p) && p > Start(s) && z + |Shortest(ReadValue(s, z, p), 256)| > max
    ensures Decoded(s, max) == None
  {
    hide Value, Start, Trim, Bytes, Shortest, Prefix, MapBase58;
    if AllBase58(Trim(s)) { AtLeastRead(s, z, p); }
  }

  /** The number read so far. */
  ghost function ReadValue(s: string, z: nat, p: nat): nat {
    if ReadSoFar(s, z, p) then Value(Prefix(s, Start(s) + z, p), 58) else 0
  }

  lemma ReadNothing(s: string, z: nat)
    requires ReadSoFar(s, z, Start(s) + z)
    ensures ReadValue(s, z, Start(s) + z) == 0
  {
    hide Start;
    NothingRead(s, Start(s) + z);
  }

  /** One more character is read, or the text is rejected. */
  lemma ReadNext(s: string, z: nat, p: nat, max: int)
    requires ReadSoFar(s, z, p) && p < |s| && !IsSpace(s[p])
    ensures MapBase58(s[p]) == -1 ==> Decoded(s, max) == None
    ensures MapBase58(s[p]) != -1 ==>
              ReadSoFar(s, z, p + 1) && ReadValue(s, z, p) * 58 + MapBase58(s[p]) == ReadValue(s, z, p + 1) < Pow(256, (|s| - Start(s) - z) * 733 / 1000 + 1)
  {
    hide Value, Pow, MapBase58, IsSpace, Start, Decoded, Prefix;
    if MapBase58(s[p]) == -1 {
      Rejects(s, p, p, max);
    } else {
      DecodeFits(s, Start(s) + z, p);
    }
  }

  /** The main loop of DecodeBase58; None is an invalid character or too long a result. */
  method FromBase58(s: string, zeroes: nat, max: int) returns (end: nat, r: Option<seq<nat>>)
    requires Start(s) + zeroes <= |s| && ReadSoFar(s, zeroes, Start(s) + zeroes)
    ensures r == None ==> Decoded(s, max) == None
    ensures r.Some? ==> end <= |s| && ReadSoFar(s, zeroes, end) && (end == |s| || IsSpace(s[end])) && (end == Start(s) + zeroes || |r.value| + zeroes <= max)
    ensures r.Some? ==> r.value == Shortest(ReadValue(s, zeroes, end), 256)
  {
    hide Pow, Value, MapBase58, IsSpace, Decoded, Start, Shortest, InUse, Digits, ReadSoFar, ReadValue;
    var start := Start(s) + zeroes;
    var buf := new nat[(|s| - start) * 733 / 1000 + 1](_ => 0);
    var length: nat := 0;
    FreshBuffer(buf[..], 256);
    ReadNothing(s, zeroes);
    end := start;
    while end < |s| && !IsSpace(s[end])
      invariant start <= end <= |s| && ReadSoFar(s, zeroes, end) && buf.Length == (|s| - start) * 733 / 1000 + 1
      invariant Digits(buf[..], 256) && InUse(buf[..], length) && Value(buf[..], 256) == ReadValue(s, zeroes, end)
      invariant end == start || length + zeroes <= max
      decreases |s| - end
    {
      ReadNext(s, zeroes, end, max);
      var carry := MapBase58(s[end]);
      if carry == -1 {
        return end, None;
      }
      length := MultiplyAdd(buf, length, 58, carry, 256);
      end := end + 1;
      if length + zeroes > max {
        InUseShortest(buf[..], length, 256);
        TooLong(s, zeroes, end, max);
        return end, None;
      }
    }
    InUseShortest(buf[..], length, 256);
    r := Some(buf[..][buf.Length - length..]);
  }

  /** DecodeBase58. */
  method DecodeBase58(s: string, max: int) returns (r: Option<seq<nat>>)
    ensures r == Decoded(s, max)
  {
    hide Pow, Value, MapBase58, IsSpace, Decoded, Bytes, Trim;
    if '\0' in s {
      ghost var i :| 0 <= i < |s| && s[i] == '\0';
      NulRejected(s, i, max);
      return None;
    }
    var p := SkipSpaces(s, 0);
    StartIs(s, p);
    ghost var a := p;
    var zeroes := 0;
    while p < |s| && s[p] == '1'
      invariant zeroes >= 0 && p == a + zeroes <= |s| && forall i :: a <= i < p ==> s[i] == '1'
      invariant zeroes > 0 ==> zeroes <= max
      decreases |s| - p
    {
      zeroes := zeroes + 1;
      if zeroes > max {
        TooManyOnes(s, zeroes, max);
        return None;
      }
      p := p + 1;
    }
    OnesRead(s, zeroes);
    var end, bytes := FromBase58(s, zeroes, max);
    if bytes == None {
      return None;
    }
    var q := SkipSpaces(s, end);
    if q != |s| {
      SpaceInside(s, end, q, max);
      return None;
    }
    r := Some(Zeros(zeroes) + bytes.value);
    Completed(s, zeroes, end, bytes.value, max);
  }

  lemma NulRejected(s: string, i: nat, max: int)
    requires i < |s| && s[i] == '\0'
    ensures Decoded(s, max) == None
  {
    hide Decoded;
    assert !IsSpace(s[i]);
    Rejects(s, i, i, max);
  }

  lemma OnesRead(s: string, z: nat)
    requires Start(s) + z <= |s| && (forall i :: Start(s) <= i < Start(s) + z ==> s[i] == '1') && (Start(s) + z < |s| ==> s[Start(s) + z] != '1')
    ensures ReadSoFar(s, z, Start(s) + z)
  {
    assert MapBase58('1') == 0;
  }

  lemma TooManyOnes(s: string, n: nat, max: int)
    requires n > max && n > 0 && Start(s) + n <= |s| && forall i :: Start(s) <= i < Start(s) + n ==> s[i] == '1'
    ensures Decoded(s, max) == None
  {
    hide Value, IsSpace, Start, End, Trim, LeadingCount, Shortest;
    var t, a := Trim(s), Start(s);
    assert !IsSpace('1') by { OneIsNoSpace(); }
    if AllBase58(t) {
      TrimKeeps(s, a + n - 1, a + n - 1);
      assert LeadingCount(t, '1') >= n;
    }
  }

  lemma OneIsNoSpace()
    ensures !IsSpace('1')
  {
  }

  lemma SpaceInside(s: string, end: nat, q: nat, max: int)
    requires Start(s) <= end <= q < |s| && (end == |s| || IsSpace(s[end])) && !IsSpace(s[q])
    ensures Decoded(s, max) == None
  {
    hide Decoded;
    Rejects(s, end, q, max);
  }

  lemma ShortestZero()
    ensures Shortest(0, 256) == []
  {
  }

  lemma TrimmedRead(s: string, z: nat, end: nat)
    requires ReadSoFar(s, z, end) && (forall i :: end <= i < |s| ==> IsSpace(s[i]))
    ensures Trim(s) == s[Start(s)..end] && AllBase58(Trim(s)) && LeadingCount(Trim(s), '1') == z
  {
    hide MapBase58, IsSpace, Start, End, Trim, LeadingCount;
    var a := Start(s);
    forall i | a <= i < end ensures !IsSpace(s[i]) { NotSpace(s[i]); }
    TrimIs(s, end);
    LeadingCountIs(s[a..end], '1', z);
  }

  lemma DecodedIs(s: string, z: nat, bytes: seq<nat>, max: int)
    requires AllBase58(Trim(s)) && LeadingCount(Trim(s), '1') == z && bytes == Shortest(Value(FromText(Trim(s)[z..]), 58), 256)
    requires z + |bytes| == 0 || z + |bytes| <= max
    ensures Decoded(s, max) == Some(Zeros(z) + bytes)
  {
    hide Value, MapBase58, IsSpace, Start, End, Trim, LeadingCount, Shortest, FromText, AllBase58;
  }

  lemma Completed(s: string, z: nat, end: nat, bytes: seq<nat>, max: int)
    requires ReadSoFar(s, z, end) && (forall i :: end <= i < |s| ==> IsSpace(s[i]))
    requires bytes == Shortest(ReadValue(s, z, end), 256)
    requires (end == Start(s) + z || |bytes| + z <= max) && (z > 0 ==> z <= max)
    ensures Decoded(s, max) == Some(Zeros(z) + bytes)
  {
    hide Value, MapBase58, IsSpace, Start, End, Trim, LeadingCount, Shortest, Zeros, FromText, AllBase58, Decoded;
    TrimmedRead(s, z, end);
    assert Trim(s)[z..] == s[Start(s) + z..end];
    if end == Start(s) + z { NothingRead(s, end); ShortestZero(); }
    DecodedIs(s, z, bytes, max);
  }

  // ---------- round trips ----------

  lemma TextInverse(d: seq<nat>)
    requires Digits(d, 58)
    ensures AllBase58(Text(d)) && FromText(Text(d)) == d && forall i :: 0 <= i < |d| ==> !IsSpace(Text(d)[i]) && (Text(d)[i] == '1' <==> d[i] == 0)
  {
    hide Alphabet, MapBase58, IsSpace;
    forall i | 0 <= i < |d| ensures MapBase58(Text(d)[i]) == d[i] && !IsSpace(Text(d)[i]) && (Text(d)[i] == '1' <==> d[i] == 0) {
      AlphabetInverse(d[i]);
    }
  }

  /** Decoding inverts encoding for every byte string within the limit, and refuses the others. */
  lemma DecodeEncode(b: seq<nat>, max: int)
    requires Digits(b, 256)
    ensures Decoded(Encoded(b), max) == if b == [] || |b| <= max then Some(b) else None
  {
    hide Value, Alphabet, MapBase58, IsSpace, Shortest, Trim, LeadingCount, Text, FromText;
    var z := LeadingCount(b, 0);
    var v := Value(b[z..], 256);
    var d := Shortest(v, 58);
    var s, text := Encoded(b), Text(d);
    ShortestDigits(v, 58);
    TextInverse(d);
    EncodedPlain(s, z, text);
    LeadingCountIs(s, '1', z);
    assert s[z..] == text;
    ValueOfShortest(v, 58);
    ShortestOfValue(b[z..], 256);
    assert Zeros(z) + b[z..] == b;
  }

  lemma ShortestDigits(v: nat, base: nat)
    requires base > 1
    ensures Digits(Shortest(v, base), base) && (Shortest(v, base) != [] ==> Shortest(v, base)[0] != 0)
  {
  }

  lemma EncodedPlain(s: string, z: nat, text: string)
    requires s == Ones(z) + text && AllBase58(text) && forall i :: 0 <= i < |text| ==> !IsSpace(text[i])
    ensures Trim(s) == s && AllBase58(s)
  {
    hide IsSpace;
    assert !IsSpace('1') by { OneIsNoSpace(); }
    assert MapBase58('1') == 0;
    forall i | 0 <= i < |s| ensures !IsSpace(s[i]) && MapBase58(s[i]) != -1 {
      if i >= z { assert s[i] == text[i - z]; }
    }
    StartIs(s, 0);
    TrimIs(s, |s|);
  }

  /** Encoding inverts decoding: an accepted text is, up to surrounding spaces, the encoding of its bytes. */
  lemma EncodeDecode(s: string, max: int)
    requires Decoded(s, max).Some?
    ensures Digits(Decoded(s, max).value, 256) && Encoded(Decoded(s, max).value) == Trim(s)
  {
    hide Value, Alphabet, MapBase58, IsSpace, Shortest, Trim, LeadingCount;
    var t := Trim(s);
    var z := LeadingCount(t, '1');
    var d := FromText(t[z..]);
    var v := Value(d, 58);
    var rest := Shortest(v, 256);
    var b := Zeros(z) + rest;
    ShortestDigits(v, 256);
    LeadingCountIs(b, 0, z);
    assert b[z..] == rest;
    ValueOfShortest(v, 256);
    if d != [] { MapInverse(t[z]); }
    ShortestOfValue(d, 58);
    forall i | 0 <= i < |d| ensures Text(d)[i] == t[z + i] {
      assert t[z..][i] == t[z + i];
      MapInverse(t[z + i]);
    }
    assert Ones(z) + Text(d) == t;
  }
}
