/** Bech32 and Bech32m strings (BIP 173, BIP 350). */
module Bech32 {
  import opened Bech32Code
  import Bech32Distance
  import opened Common

  datatype Encoding = BECH32 | BECH32M

  datatype Decoding = Decoding(encoding: Encoding, hrp: string, values: seq<bv32>)

  function EncodingConstant(e: Encoding): (r: bv32)
    ensures r < 0x4000_0000
  {
    if e == BECH32 then 1 else 0x2bc830a3
  }

  // ---------- characters ----------

  function LowSymbol(v: bv32): char {
    match v
    case 0 => 'q' case 1 => 'p' case 2 => 'z' case 3 => 'r' case 4 => 'y' case 5 => '9' case 6 => 'x' case 7 => '8'
    case 8 => 'g' case 9 => 'f' case 10 => '2' case 11 => 't' case 12 => 'v' case 13 => 'd' case 14 => 'w' case _ => '0'
  }

  function HighSymbol(v: bv32): char {
    match v
    case 16 => 's' case 17 => '3' case 18 => 'j' case 19 => 'n' case 20 => '5' case 21 => '4' case 22 => 'k' case 23 => 'h'
    case 24 => 'c' case 25 => 'e' case 26 => '6' case 27 => 'm' case 28 => 'u' case 29 => 'a' case 30 => '7' case _ => 'l'
  }

  /** The character set for encoding, in two halves. */
  function Charset(v: bv32): char {
    if v < 16 then LowSymbol(v) else HighSymbol(v)
  }

  const NONE: bv32 := 0xff

  function DigitRev(c: char): bv32 {
    match c
    case '0' => 15 case '2' => 10 case '3' => 17 case '4' => 21 case '5' => 20 case '6' => 26 case '7' => 30 case '8' => 7
    case '9' => 5
    case _ => NONE
  }

  function LetterRev(c: char): bv32 {
    match c
    case 'a' => 29 case 'c' => 24 case 'd' => 13 case 'e' => 25 case 'f' => 9 case 'g' => 8 case 'h' => 23 case 'j' => 18
    case 'k' => 22 case 'l' => 31 case 'm' => 27 case 'n' => 19 case 'p' => 1 case 'q' => 0 case 'r' => 3 case 's' => 16
    case 't' => 11 case 'u' => 28 case 'v' => 12 case 'w' => 14 case 'x' => 6 case 'y' => 4 case 'z' => 2
    case _ => NONE
  }

  /** The character set for decoding, the same for both cases of a letter; NONE where there is no symbol. */
  function CharsetRev(c: char): bv32 {
    if c <= '9' then DigitRev(c) else LetterRev(LowerCase(c))
  }

  predicate IsLower(c: char) {
    'a' <= c <= 'z'
  }

  predicate IsUpper(c: char) {
    'A' <= c <= 'Z'
  }

  predicate Printable(c: char) {
    33 <= c as int <= 126
  }

  function LowerCase(c: char): char {
    if IsUpper(c) then (c as int - 'A' as int + 'a' as int) as char else c
  }

  function Lower(s: string): (r: string)
    ensures |r| == |s|
  {
    seq(|s|, i requires 0 <= i < |s| => LowerCase(s[i]))
  }

  lemma CharsetInverse(v: bv32)
    requires v < 32
    ensures CharsetRev(Charset(v)) == v && Charset(v) != '1' && !IsUpper(Charset(v)) && Printable(Charset(v))
  {
    if v < 16 { LowCharset(v); } else { HighCharset(v); }
  }

  /** The character set as it is written down. */
  lemma CharsetIs()
    ensures Charset(0) == 'q' && Charset(1) == 'p' && Charset(2) == 'z' && Charset(3) == 'r' && Charset(4) == 'y' && Charset(5) == '9' && Charset(6) == 'x' && Charset(7) == '8'
    ensures Charset(8) == 'g' && Charset(9) == 'f' && Charset(10) == '2' && Charset(11) == 't' && Charset(12) == 'v' && Charset(13) == 'd' && Charset(14) == 'w' && Charset(15) == '0'
    ensures Charset(16) == 's' && Charset(17) == '3' && Charset(18) == 'j' && Charset(19) == 'n' && Charset(20) == '5' && Charset(21) == '4' && Charset(22) == 'k' && Charset(23) == 'h'
    ensures Charset(24) == 'c' && Charset(25) == 'e' && Charset(26) == '6' && Charset(27) == 'm' && Charset(28) == 'u' && Charset(29) == 'a' && Charset(30) == '7' && Charset(31) == 'l'
  {
  }

  lemma LowCharset(v: bv32)
    requires v < 16
    ensures CharsetRev(Charset(v)) == v && Charset(v) != '1' && !IsUpper(Charset(v)) && Printable(Charset(v))
  {
  }

  lemma HighCharset(v: bv32)
    requires 16 <= v < 32
    ensures CharsetRev(Charset(v)) == v && Charset(v) != '1' && !IsUpper(Charset(v)) && Printable(Charset(v))
  {
  }

  lemma CharsetRevInverse(c: char)
    requires CharsetRev(c) != NONE
    ensures CharsetRev(c) < 32 && Charset(CharsetRev(c)) == LowerCase(c)
  {
    if c > '9' { LetterInverse(LowerCase(c)); }
  }

  lemma LetterInverse(c: char)
    requires LetterRev(c) != NONE
    ensures LetterRev(c) < 32 && Charset(LetterRev(c)) == c
  {
    if c < 'i' {} else if c < 'q' {} else {}
  }

  // ---------- checksums ----------

  function ToByte(c: char): bv32 {
    (c as int as bv32) & 0xff
  }

  function HighPart(c: char): bv32 {
    ToByte(c) >> 5
  }

  function LowPart(c: char): bv32 {
    ToByte(c) & 31
  }

  /** The human-readable part as symbols: high bits, a zero, low bits. */
  function Expanded(hrp: string): (r: seq<bv32>)
    ensures |r| == 2 * |hrp| + 1
  {
    seq(|hrp|, i requires 0 <= i < |hrp| => HighPart(hrp[i])) + [0] + seq(|hrp|, i requires 0 <= i < |hrp| => LowPart(hrp[i]))
  }

  /** Every character is taken apart into two symbols that make it up again, around a zero. */
  lemma ExpandedParts(hrp: string, i: nat)
    requires i < |hrp|
    ensures var e := Expanded(hrp);
            e[i] < 8 && e[|hrp|] == 0 && e[|hrp| + 1 + i] < 32 && e[i] * 32 + e[|hrp| + 1 + i] == ToByte(hrp[i])
  {
    hide HighPart, LowPart, ToByte;
    PartsOf(hrp[i]);
  }

  lemma PartsOf(c: char)
    ensures HighPart(c) < 8 && LowPart(c) < 32 && HighPart(c) * 32 + LowPart(c) == ToByte(c)
  {
    var b := ToByte(c);
    assert b <= 0xff;
    assert (b >> 5) * 32 + (b & 31) == b;
  }

  lemma ExpandedSymbols(hrp: string)
    ensures Symbols(Expanded(hrp))
  {
    hide HighPart, LowPart;
    forall i | 0 <= i < |Expanded(hrp)| ensures Expanded(hrp)[i] < 32 {
      if i < |hrp| {
        ByteParts(hrp[i]);
      } else if i > |hrp| {
        ByteParts(hrp[i - |hrp| - 1]);
      }
    }
  }

  lemma ByteParts(c: char)
    ensures HighPart(c) < 32 && LowPart(c) < 32
  {
  }

  method ExpandHRP(hrp: string) returns (r: seq<bv32>)
    ensures r == Expanded(hrp)
  {
    hide HighPart, LowPart;
    var n := |hrp|;
    var ret := new bv32[2 * n + 1](_ => 0);
    for i := 0 to n
      invariant forall k :: 0 <= k < i ==> ret[k] == HighPart(hrp[k]) && ret[k + n + 1] == LowPart(hrp[k])
    {
      ret[i] := HighPart(hrp[i]);
      ret[i + n + 1] := LowPart(hrp[i]);
    }
    ret[n] := 0;
    r := ret[..];
    forall k | 0 <= k < |r| ensures r[k] == Expanded(hrp)[k] {
      if k > n { assert ret[(k - n - 1) + n + 1] == LowPart(hrp[k - n - 1]); }
    }
  }

  /** The six symbols that complete a message. */
  function Checksum(e: Encoding, hrp: string, values: seq<bv32>): (r: seq<bv32>)
    ensures |r| == 6
  {
    Unpack(Xor(Residue(1, Expanded(hrp) + values + SixZeros()), EncodingConstant(e)))
  }

  /** The i-th group of five bits: the word shifted right by 5 * (5 - i). */
  function SymbolAt(word: bv32, i: nat): bv32
    requires i < 6
  {
    match i
    case 0 => (word >> 25) & 31
    case 1 => (word >> 20) & 31
    case 2 => (word >> 15) & 31
    case 3 => (word >> 10) & 31
    case 4 => (word >> 5) & 31
    case _ => word & 31
  }

  lemma SymbolAtIs(word: bv32, i: nat)
    requires i < 6
    ensures Unpack(word)[i] == SymbolAt(word, i)
  {
  }

  method CreateChecksum(e: Encoding, hrp: string, values: seq<bv32>) returns (r: seq<bv32>)
    ensures r == Checksum(e, hrp, values)
  {
    hide Residue, Unpack, Xor, SymbolAt;
    var enc := ExpandHRP(hrp);
    enc := enc + values;
    enc := enc + SixZeros();
    var mod := PolyMod(enc);
    mod := Xor(mod, EncodingConstant(e));
    r := [];
    for i := 0 to 6
      invariant |r| == i && forall k :: 0 <= k < i ==> r[k] == Unpack(mod)[k]
    {
      SymbolAtIs(mod, i);
      r := r + [SymbolAt(mod, i)];
    }
    assert r == Unpack(mod);
  }

  function Verdict(check: bv32): Option<Encoding> {
    if check == EncodingConstant(BECH32) then Some(BECH32)
    else if check == EncodingConstant(BECH32M) then Some(BECH32M)
    else None
  }

  /** VerifyChecksum. */
  method VerifyChecksum(hrp: string, values: seq<bv32>) returns (r: Option<Encoding>)
    ensures r == Verdict(Residue(1, Expanded(hrp) + values))
  {
    hide Residue;
    var enc := ExpandHRP(hrp);
    var check := PolyMod(enc + values);
    r := Verdict(check);
  }

  /**
   * The checksum law: of all six-symbol endings, exactly the created checksum verifies, and it
   * verifies as the encoding it was made for.
   */
  lemma ChecksumLaw(e: Encoding, hrp: string, values: seq<bv32>, tail: seq<bv32>)
    requires Symbols(values) && |tail| == 6 && Symbols(tail)
    ensures Verdict(Residue(1, Expanded(hrp) + (values + tail))) == Some(e) <==> tail == Checksum(e, hrp, values)
  {
    hide Residue, Unpack, Xor;
    var v := Expanded(hrp) + values;
    ExpandedSymbols(hrp);
    ResidueBound(1, v);
    assert v + tail == Expanded(hrp) + (values + tail);
    ResidueConcat(1, v, tail);
    ResidueConcat(1, v, SixZeros());
    ChecksumExact(Residue(1, v), tail, EncodingConstant(e));
  }

  // ---------- strings ----------

  predicate CharactersOk(s: string) {
    && (forall i :: 0 <= i < |s| ==> Printable(s[i]))
    && ((forall i :: 0 <= i < |s| ==> !IsLower(s[i])) || (forall i :: 0 <= i < |s| ==> !IsUpper(s[i])))
  }

  predicate Letter(c: char) {
    IsLower(c) || IsUpper(c)
  }

  /** A character outside the printable range, or a letter not in the case of the first letter. */
  predicate Offends(s: string, i: nat)
    requires i < |s|
  {
    || !Printable(s[i])
    || (Letter(s[i]) && exists k :: 0 <= k < i && FirstLetter(s, k) && IsLower(s[k]) != IsLower(s[i]))
  }

  predicate FirstLetter(s: string, k: nat)
    requires k < |s|
  {
    Letter(s[k]) && forall m :: 0 <= m < k ==> !Letter(s[m])
  }

  /** No position offends exactly when the characters are printable and of one case. */
  lemma NoneOffends(s: string)
    ensures CharactersOk(s) <==> forall i :: 0 <= i < |s| ==> !Offends(s, i)
  {
    if forall i :: 0 <= i < |s| ==> !Offends(s, i) {
      forall i | 0 <= i < |s| ensures Printable(s[i]) {
        assert !Offends(s, i);
      }
      if k :| 0 <= k < |s| && Letter(s[k]) {
        var f := FindFirst(s, k);
        forall i | 0 <= i < |s| && Letter(s[i]) ensures IsLower(s[i]) == IsLower(s[f]) {
          assert !Offends(s, i);
        }
      }
    }
  }

  lemma FindFirst(s: string, k: nat) returns (f: nat)
    requires k < |s| && Letter(s[k])
    ensures f <= k && FirstLetter(s, f)
  {
    f := 0;
    while !Letter(s[f])
      invariant f <= k && forall m :: 0 <= m < f ==> !Letter(s[m])
      decreases k - f
    {
      f := f + 1;
    }
  }

  /** CheckCharacters: the positions that offend, in order, and whether there are none. */
  method CheckCharacters(s: string) returns (ok: bool, errors: seq<nat>)
    ensures forall i :: 0 <= i < |s| ==> (i in errors <==> Offends(s, i))
    ensures forall a, b :: 0 <= a < b < |errors| ==> errors[a] < errors[b] < |s|
    ensures forall a :: 0 <= a < |errors| ==> errors[a] < |s|
    ensures ok <==> CharactersOk(s)
  {
    var lower, upper := false, false;
    ghost var first: int := -1;
    errors := [];
    for i := 0 to |s|
      invariant -1 <= first < i
      invariant first == -1 ==> !lower && !upper && forall m :: 0 <= m < i ==> !Letter(s[m])
      invariant first >= 0 ==> FirstLetter(s, first) && lower == IsLower(s[first]) && upper == IsUpper(s[first])
      invariant forall a :: 0 <= a < |errors| ==> errors[a] < i
      invariant forall a, b :: 0 <= a < b < |errors| ==> errors[a] < errors[b]
      invariant forall m :: 0 <= m < i ==> (m in errors <==> Offends(s, m))
    {
      var c := s[i];
      ghost var before := errors;
      if first == -1 && Letter(c) { first := i; }
      if 'a' <= c <= 'z' {
        if upper { errors := errors + [i]; } else { lower := true; }
      } else if 'A' <= c <= 'Z' {
        if lower { errors := errors + [i]; } else { upper := true; }
      } else if c as int < 33 || c as int > 126 {
        errors := errors + [i];
      }
      assert forall m :: m in errors <==> m in before || (m == i && errors != before);
    }
    NoneOffends(s);
    assert errors != [] ==> errors[0] in errors;
    ok := errors == [];
  }

  /** The last position of a character, or -1. */
  function LastIndex(s: string, c: char): (r: int)
    ensures -1 <= r < |s|
    ensures r >= 0 ==> s[r] == c
    ensures forall i :: r < i < |s| ==> s[i] != c
  {
    if s == [] then -1 else if s[|s| - 1] == c then |s| - 1 else LastIndex(s[..|s| - 1], c)
  }

  function Text(v: seq<bv32>): (r: string)
    ensures |r| == |v|
  {
    seq(|v|, i requires 0 <= i < |v| => Charset(v[i]))
  }

  function FromText(s: string): (r: seq<bv32>)
    ensures |r| == |s|
  {
    seq(|s|, i requires 0 <= i < |s| => CharsetRev(s[i]))
  }

  function Encoded(e: Encoding, hrp: string, values: seq<bv32>): string {
    hrp + ['1'] + Text(values + Checksum(e, hrp, values))
  }

  /** Encode; an upper-case prefix and symbols of more than five bits are excluded by its assertion and table. */
  method Encode(e: Encoding, hrp: string, values: seq<bv32>) returns (r: string)
    requires Symbols(values) && forall i :: 0 <= i < |hrp| ==> !IsUpper(hrp[i])
    ensures r == Encoded(e, hrp, values)
  {
    hide Charset, Checksum;
    var checksum := CreateChecksum(e, hrp, values);
    var combined := values + checksum;
    r := hrp + ['1'];
    ghost var start := r;
    for i := 0 to |combined|
      invariant r == start + Text(combined[..i])
    {
      r := r + [Charset(combined[i])];
      assert Text(combined[..i + 1]) == Text(combined[..i]) + [Charset(combined[i])];
    }
    assert combined[..|combined|] == combined;
  }

  function Decoded(s: string): Option<Decoding> {
    var pos := LastIndex(s, '1');
    if !CharactersOk(s) || |s| > 90 || pos < 1 || pos + 7 > |s| then None
    else
      var values, hrp := FromText(s[pos + 1..]), Lower(s[..pos]);
      var verdict := Verdict(Residue(1, Expanded(hrp) + values));
      if (exists i :: 0 <= i < |values| && values[i] == NONE) || verdict == None then None
      else Some(Decoding(verdict.value, hrp, values[..|values| - 6]))
  }

  /** Decode. */
  method Decode(s: string) returns (r: Option<Decoding>)
    ensures r == Decoded(s)
  {
    hide Residue, CharsetRev, LowerCase, Expanded, Verdict;
    var ok, _ := CheckCharacters(s);
    if !ok {
      return None;
    }
    var pos := LastIndex(s, '1');
    if |s| > 90 || pos == -1 || pos == 0 || pos + 7 > |s| {
      return None;
    }
    ghost var text := s[pos + 1..];
    var values: seq<bv32> := [];
    for i := 0 to |s| - 1 - pos
      invariant |values| == i && forall k :: 0 <= k < i ==> values[k] == CharsetRev(text[k]) && values[k] != NONE
    {
      var rev := CharsetRev(s[i + pos + 1]);
      assert text[i] == s[i + pos + 1];
      if rev == NONE {
        assert FromText(text)[i] == NONE;
        return None;
      }
      values := values + [rev];
    }
    assert values == FromText(text);
    var hrp := "";
    for i := 0 to pos
      invariant hrp == Lower(s[..i])
    {
      hrp := hrp + [LowerCase(s[i])];
      assert Lower(s[..i + 1]) == Lower(s[..i]) + [LowerCase(s[i])];
    }
    var result := VerifyChecksum(hrp, values);
    if result == None {
      return None;
    }
    return Some(Decoding(result.value, hrp, values[..|values| - 6]));
  }

  // ---------- round trips ----------

  lemma TextInverse(v: seq<bv32>)
    requires Symbols(v)
    ensures FromText(Text(v)) == v && Lower(Text(v)) == Text(v)
    ensures forall i :: 0 <= i < |v| ==> Text(v)[i] != '1' && Printable(Text(v)[i]) && !IsUpper(Text(v)[i]) && FromText(Text(v))[i] != NONE
  {
    hide Charset, CharsetRev, Printable;
    forall i | 0 <= i < |v|
      ensures FromText(Text(v))[i] == v[i] && Text(v)[i] != '1' && Printable(Text(v)[i]) && !IsUpper(Text(v)[i])
    {
      CharsetInverse(v[i]);
    }
  }

  lemma {:induction false} LastIndexSplit(a: string, b: string)
    requires forall i :: 0 <= i < |b| ==> b[i] != '1'
    ensures LastIndex(a + ['1'] + b, '1') == |a|
  {
    var s := a + ['1'] + b;
    assert s[|a|] == '1';
    forall i | |a| < i < |s| ensures s[i] != '1' {
      assert s[i] == b[i - |a| - 1];
    }
  }

  /** What a decodable prefix and length are. */
  predicate Decodable(hrp: string, values: seq<bv32>) {
    |hrp| > 0 && |hrp| + |values| + 7 <= 90 && forall i :: 0 <= i < |hrp| ==> Printable(hrp[i])
  }

  /** Decode inverts Encode exactly for non-empty printable prefixes within the length limit; otherwise it refuses. */
  lemma DecodeEncode(e: Encoding, hrp: string, values: seq<bv32>)
    requires Symbols(values) && forall i :: 0 <= i < |hrp| ==> !IsUpper(hrp[i])
    ensures Decoded(Encoded(e, hrp, values)) == if Decodable(hrp, values) then Some(Decoding(e, hrp, values)) else None
  {
    hide Residue, Unpack, Xor, Charset, CharsetRev, Checksum, Expanded, Verdict, Text, FromText;
    var check := Checksum(e, hrp, values);
    CheckSymbols(e, hrp, values);
    var data := values + check;
    var s, text := Encoded(e, hrp, values), Text(data);
    TextInverse(data);
    LastIndexSplit(hrp, text);
    assert s[..|hrp|] == hrp && s[|hrp| + 1..] == text && |s| == |hrp| + |values| + 7;
    if Decodable(hrp, values) {
      SplitCharacters(s, hrp, text);
      assert Lower(hrp) == hrp;
      ChecksumLaw(e, hrp, values, check);
      assert data[..|data| - 6] == values;
    } else if |hrp| > 0 && |s| <= 90 {
      var i :| 0 <= i < |hrp| && !Printable(hrp[i]);
      assert s[i] == hrp[i];
    }
  }

  lemma CheckSymbols(e: Encoding, hrp: string, values: seq<bv32>)
    ensures Symbols(Checksum(e, hrp, values))
  {
    hide Residue, Unpack;
    UnpackSymbols(Xor(Residue(1, Expanded(hrp) + values + SixZeros()), EncodingConstant(e)));
  }

  lemma SplitCharacters(s: string, hrp: string, text: string)
    requires s == hrp + ['1'] + text && (forall i :: 0 <= i < |hrp| ==> Printable(hrp[i]) && !IsUpper(hrp[i]))
    requires forall i :: 0 <= i < |text| ==> Printable(text[i]) && !IsUpper(text[i])
    ensures CharactersOk(s)
  {
    forall i | 0 <= i < |s| ensures Printable(s[i]) && !IsUpper(s[i]) {
      if i < |hrp| { assert s[i] == hrp[i]; } else if i > |hrp| { assert s[i] == text[i - |hrp| - 1]; }
    }
  }

  /** Encode inverts Decode: an accepted string is, up to case, the encoding of what it decodes to. */
  lemma EncodeDecode(s: string)
    requires Decoded(s).Some?
    ensures var d := Decoded(s).value;
            Symbols(d.values) && Decodable(d.hrp, d.values) && Lower(s) == Encoded(d.encoding, d.hrp, d.values)
  {
    hide Residue, Unpack, Xor, Charset, CharsetRev, Checksum, Expanded, Verdict, LowerCase;
    var d, pos := Decoded(s).value, LastIndex(s, '1');
    var text := s[pos + 1..];
    var data := FromText(text);
    TextOf(text);
    var tail := data[|data| - 6..];
    assert data == d.values + tail;
    ChecksumLaw(d.encoding, d.hrp, d.values, tail);
    assert s == s[..pos] + ['1'] + text;
    LowerJoin(s[..pos], text);
    LowerPrintable(s[..pos]);
  }

  lemma TextOf(text: string)
    requires forall i :: 0 <= i < |text| ==> FromText(text)[i] != NONE
    ensures Symbols(FromText(text)) && Text(FromText(text)) == Lower(text)
  {
    hide Charset, CharsetRev, LowerCase;
    forall i | 0 <= i < |text| ensures FromText(text)[i] < 32 && Text(FromText(text))[i] == Lower(text)[i] {
      assert FromText(text)[i] == CharsetRev(text[i]);
      CharsetRevInverse(text[i]);
    }
  }

  lemma LowerJoin(a: string, b: string)
    ensures Lower(a + ['1'] + b) == Lower(a) + ['1'] + Lower(b)
  {
    assert LowerCase('1') == '1';
  }

  lemma LowerPrintable(a: string)
    requires forall i :: 0 <= i < |a| ==> Printable(a[i])
    ensures forall i :: 0 <= i < |a| ==> Printable(Lower(a)[i])
  {
  }

  // ---------- case ----------

  lemma LowerCharacter(c: char)
    ensures LowerCase(LowerCase(c)) == LowerCase(c) && CharsetRev(LowerCase(c)) == CharsetRev(c) && (LowerCase(c) == '1' <==> c == '1')
    ensures (Printable(LowerCase(c)) <==> Printable(c)) && !IsUpper(LowerCase(c))
  {
  }

  /** Decode does not see the case of a string, as long as it is one case. */
  lemma DecodeCase(s: string)
    requires CharactersOk(s)
    ensures Decoded(Lower(s)) == Decoded(s)
  {
    hide Residue, CharsetRev, LowerCase, Expanded, Verdict, Printable;
    var t, pos := Lower(s), LastIndex(s, '1');
    forall i | 0 <= i < |s| ensures (t[i] == '1' <==> s[i] == '1') && Printable(t[i]) && !IsUpper(t[i]) {
      LowerCharacter(s[i]);
    }
    assert LastIndex(t, '1') == pos;
    if pos >= 0 {
      forall i | 0 <= i < |s| ensures CharsetRev(t[i]) == CharsetRev(s[i]) && LowerCase(t[i]) == LowerCase(s[i]) {
        LowerCharacter(s[i]);
      }
      assert FromText(t[pos + 1..]) == FromText(s[pos + 1..]);
      assert Lower(t[..pos]) == Lower(s[..pos]);
    }
  }

  /** The strings that decode are exactly the encodings of decodable inputs, in lower or in upper case. */
  lemma DecodeExactly(s: string, d: Decoding)
    ensures Decoded(s) == Some(d) <==>
            && CharactersOk(s) && Symbols(d.values) && Decodable(d.hrp, d.values) && (forall i :: 0 <= i < |d.hrp| ==> !IsUpper(d.hrp[i]))
            && Lower(s) == Encoded(d.encoding, d.hrp, d.values)
  {
    hide Residue, CharsetRev, LowerCase, Expanded, Verdict, Encoded, Decodable;
    if Decoded(s) == Some(d) {
      EncodeDecode(s);
      forall i | 0 <= i < |d.hrp| ensures !IsUpper(d.hrp[i]) { LowerCharacter(s[i]); }
    } else if CharactersOk(s) && Symbols(d.values) && Decodable(d.hrp, d.values) && (forall i :: 0 <= i < |d.hrp| ==> !IsUpper(d.hrp[i]))
              && Lower(s) == Encoded(d.encoding, d.hrp, d.values) {
      DecodeCase(s);
      DecodeEncode(d.encoding, d.hrp, d.values);
    }
  }

  // ---------- error detection ----------

  /** Symbols of equal characters are equal, and no others. */
  lemma SameSymbol(c: char, d: char)
    requires CharsetRev(c) != NONE && CharsetRev(d) != NONE
    ensures CharsetRev(c) == CharsetRev(d) <==> LowerCase(c) == LowerCase(d)
  {
    hide CharsetRev, LowerCase;
    CharsetRevInverse(c);
    CharsetRevInverse(d);
    LowerCharacter(c);
    LowerCharacter(d);
  }

  /** The symbols that a decodable string puts through the checksum. */
  function Received(s: string): seq<bv32>
    requires Decoded(s).Some?
  {
    var pos := LastIndex(s, '1');
    Expanded(Lower(s[..pos])) + FromText(s[pos + 1..])
  }

  lemma VerdictIs(check: bv32)
    requires Verdict(check).Some?
    ensures check == EncodingConstant(Verdict(check).value)
  {
  }

  predicate AllSymbols(v: seq<bv32>) {
    forall i :: 0 <= i < |v| ==> v[i] != NONE
  }

  /** What a string needs to have decoded. */
  lemma DecodedParts(s: string, pos: int)
    requires Decoded(s).Some? && pos == LastIndex(s, '1')
    ensures 0 < pos <= |s| - 7 && |s| <= 90
    ensures AllSymbols(FromText(s[pos + 1..]))
    ensures Verdict(Residue(1, Received(s))) == Some(Decoded(s).value.encoding)
  {
    hide Residue, CharsetRev, LowerCase, Expanded, Verdict, CharactersOk, LastIndex;
  }

  lemma ReceivedIs(s: string)
    requires Decoded(s).Some?
    ensures Symbols(Received(s)) && Residue(1, Received(s)) == EncodingConstant(Decoded(s).value.encoding)
    ensures forall i :: LastIndex(s, '1') < i < |s| ==> CharsetRev(s[i]) != NONE
  {
    hide Residue, CharsetRev, LowerCase, Expanded, Verdict, EncodingConstant, Decoded, LastIndex;
    var pos := LastIndex(s, '1');
    DecodedParts(s, pos);
    VerdictIs(Residue(1, Received(s)));
    ExpandedSymbols(Lower(s[..pos]));
    TailSymbols(s, pos);
  }

  lemma TailSymbols(s: string, pos: nat)
    requires pos < |s| && AllSymbols(FromText(s[pos + 1..]))
    ensures Symbols(FromText(s[pos + 1..])) && forall i :: pos < i < |s| ==> CharsetRev(s[i]) != NONE
  {
    hide CharsetRev;
    var values := FromText(s[pos + 1..]);
    forall i | 0 <= i < |values| ensures values[i] < 32 {
      assert values[i] == CharsetRev(s[pos + 1..][i]);
      CharsetRevInverse(s[pos + 1..][i]);
    }
    forall i | pos < i < |s| ensures CharsetRev(s[i]) != NONE {
      assert values[i - pos - 1] == CharsetRev(s[i]);
    }
  }

  /** Each character after the separator is one symbol; those before it come first. */
  lemma ReceivedAt(s: string, pos: nat)
    requires Decoded(s).Some? && pos == LastIndex(s, '1')
    ensures |Received(s)| == |s| + pos && Received(s)[..2 * pos + 1] == Expanded(Lower(s[..pos]))
    ensures forall i :: pos < i < |s| ==> Received(s)[i + pos] == CharsetRev(s[i])
  {
    hide Residue, CharsetRev, LowerCase;
  }

  /** Strings that differ after the separator differ in the same symbols. */
  lemma ReceivedDiffer(s: string, t: string, i: nat, j: nat, k: nat)
    requires Decoded(s).Some? && Decoded(t).Some? && |s| == |t| && LastIndex(t, '1') == LastIndex(s, '1') < i <= j <= k < |s|
    requires Lower(s) != Lower(t) && forall m :: 0 <= m < |s| && m != i && m != j && m != k ==> LowerCase(s[m]) == LowerCase(t[m])
    ensures var n, v, w := LastIndex(s, '1'), Received(s), Received(t);
            n > 0 && |v| == |w| == |s| + n && v != w && forall m :: 0 <= m < |v| && m != i + n && m != j + n && m != k + n ==> v[m] == w[m]
  {
    hide Residue, CharsetRev, LowerCase, Expanded, Decoded, Received;
    var n, v, w := LastIndex(s, '1'), Received(s), Received(t);
    ReceivedIs(s);
    ReceivedIs(t);
    DecodedParts(s, n);
    ReceivedAt(s, n);
    ReceivedAt(t, n);
    assert Lower(s[..n]) == Lower(t[..n]);
    forall m | 0 <= m < |v| && m != i + n && m != j + n && m != k + n ensures v[m] == w[m] {
      if m < 2 * n + 1 {
        assert v[m] == v[..2 * n + 1][m] && w[m] == w[..2 * n + 1][m];
      } else {
        SameSymbol(s[m - n], t[m - n]);
        assert v[(m - n) + n] == CharsetRev(s[m - n]) && w[(m - n) + n] == CharsetRev(t[m - n]);
      }
    }
    if v == w {
      forall m | 0 <= m < |s| ensures Lower(s)[m] == Lower(t)[m] {
        if m > n {
          SameSymbol(s[m], t[m]);
          assert v[m + n] == CharsetRev(s[m]) && w[m + n] == CharsetRev(t[m]);
        }
      }
    }
  }

  /**
   * Replacing one to three characters after the separator of a decodable string, by anything but
   * the other case of the same letter or a new separator, is noticed: what results does not decode
   * under the same checksum constant.
   */
  lemma DecodeDetects(s: string, t: string, i: nat, j: nat, k: nat)
    requires Decoded(s).Some? && |s| == |t| && LastIndex(t, '1') == LastIndex(s, '1') < i <= j <= k < |s|
    requires Lower(s) != Lower(t) && forall m :: 0 <= m < |s| && m != i && m != j && m != k ==> LowerCase(s[m]) == LowerCase(t[m])
    ensures Decoded(t) == None || Decoded(t).value.encoding != Decoded(s).value.encoding
  {
    hide Residue, CharsetRev, LowerCase, Expanded, Decoded, Received;
    if Decoded(t).Some? {
      ReceivedIs(s);
      ReceivedIs(t);
      DecodedParts(s, LastIndex(s, '1'));
      ReceivedDiffer(s, t, i, j, k);
      var n := LastIndex(s, '1');
      Bech32Distance.TripleError(Received(s), Received(t), i + n, j + n, k + n);
    }
  }

  // ---------- two strings in full ----------

  lemma ExpandedA()
    ensures Expanded("a") + [] + SixZeros() == [3, 0, 1, 0, 0, 0, 0, 0, 0]
  {
    hide HighPart, LowPart;
    assert HighPart('a') == 3 && LowPart('a') == 1 by { PartsOfA(); }
  }

  lemma PartsOfA()
    ensures HighPart('a') == 3 && LowPart('a') == 1
  {
    assert 'a' as int == 97;
  }

  lemma StepsOfA()
    ensures Step(1, 3) == 35 && Step(35, 0) == 1120 && Step(1120, 1) == 35841 && Step(35841, 0) == 1146912 && Step(1146912, 0) == 36701184
    ensures Step(36701184, 0) == 1030412210 && Step(1030412210, 0) == 50147513 && Step(50147513, 0) == 617365650 && Step(617365650, 0) == 365756062
  {
  }

  lemma ResidueOfA()
    ensures Residue(1, [3, 0, 1, 0, 0, 0, 0, 0, 0]) == 365756062
  {
    hide Step, Residue;
    StepsOfA();
    var a: seq<bv32>, z: seq<bv32> := [3, 0, 1], [0, 0, 0, 0, 0, 0];
    ResidueConcat(1, a, z);
    ResidueSix(35841, z);
    assert a[..2][..1] == a[..1] && a[..1][..0] == [];
    LastSymbol(1, a);
    LastSymbol(1, a[..2]);
    LastSymbol(1, a[..1]);
    ResidueEmpty(1, []);
    assert a + z == [3, 0, 1, 0, 0, 0, 0, 0, 0];
  }

  lemma ChecksumsOfA()
    ensures Unpack(Xor(365756062, EncodingConstant(BECH32))) == [10, 28, 25, 31, 20, 31]
    ensures Unpack(Xor(365756062, EncodingConstant(BECH32M))) == [31, 0, 9, 19, 17, 29]
  {
  }

  /** The shortest valid strings of both encodings, letter by letter. */
  lemma KnownStrings()
    ensures Encoded(BECH32, "a", []) == "a12uel5l" && Encoded(BECH32M, "a", []) == "a1lqfn3a"
  {
    hide Step, Residue, Unpack, Xor, Expanded, Charset;
    ExpandedA();
    ResidueOfA();
    ChecksumsOfA();
    CharsetIs();
    assert [] + Checksum(BECH32, "a", []) == [10, 28, 25, 31, 20, 31];
    assert [] + Checksum(BECH32M, "a", []) == [31, 0, 9, 19, 17, 29];
  }
}
