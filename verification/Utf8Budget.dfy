/** Cutting a text to a byte budget in UTF-8 (section 3 of RFC 3629). Characters are Unicode scalar values. */
module Utf8Budget {
  type byte = b: int | 0 <= b < 256

  function Width(c: char): (w: nat)
    ensures 1 <= w <= 4
  {
    var n := c as int;
    if n < 0x80 then 1 else if n < 0x800 then 2 else if n < 0x10000 then 3 else 4
  }

  function Tail(n: nat): byte {
    0x80 + n % 64
  }

  function EncodeChar(c: char): (bytes: seq<byte>)
    ensures |bytes| == Width(c)
  {
    var n := c as int;
    if n < 0x80 then [n]
    else if n < 0x800 then [0xC0 + n / 64, Tail(n)]
    else if n < 0x10000 then [0xE0 + n / 4096, Tail(n / 64), Tail(n)]
    else [0xF0 + n / 262144, Tail(n / 4096), Tail(n / 64), Tail(n)]
  }

  function Encode(text: string): (bytes: seq<byte>)
    ensures |bytes| >= |text|
  {
    if text == "" then [] else EncodeChar(text[0]) + Encode(text[1..])
  }

  predicate IsTail(b: byte) {
    b / 64 == 2
  }

  predicate IsLead(b: byte) {
    b / 64 == 3
  }

  function LengthOf(first: byte): nat {
    if first < 0x80 then 1 else if first < 0xC0 then 0 else if first < 0xE0 then 2 else if first < 0xF0 then 3 else if first < 0xF8 then 4 else 0
  }

  function Scalar(n: nat): string {
    if n < 0xD800 || 0xE000 <= n < 0x110000 then [n as char] else ""
  }

  function LowBits(b: byte): int {
    b % 64
  }

  function Payload(b: seq<byte>): int
    requires 1 <= |b| <= 4
  {
    var n: int := b[0];
    if |b| == 1 then n
    else if |b| == 2 then n % 32 * 64 + LowBits(b[1])
    else if |b| == 3 then n % 16 * 4096 + LowBits(b[1]) * 64 + LowBits(b[2])
    else n % 8 * 262144 + LowBits(b[1]) * 4096 + LowBits(b[2]) * 64 + LowBits(b[3])
  }

  /** The character of one sequence, unless it is overlong, a surrogate or out of range. */
  function DecodeOne(b: seq<byte>): string
    requires 1 <= |b| <= 4
  {
    var s := Scalar(Payload(b));
    if s != "" && EncodeChar(s[0]) == b then s else ""
  }

  /** Decodes what is well-formed and ignores the other bytes. */
  function Decode(bytes: seq<byte>): string
    decreases |bytes|
  {
    if bytes == [] then ""
    else
      var n := LengthOf(bytes[0]);
      if 0 < n <= |bytes| && DecodeOne(bytes[..n]) != "" then DecodeOne(bytes[..n]) + Decode(bytes[n..])
      else Decode(bytes[1..])
  }

  lemma BySixBits(n: nat)
    ensures n == n / 64 * 64 + n % 64
    ensures n == n / 4096 * 4096 + n / 64 % 64 * 64 + n % 64
    ensures n == n / 262144 * 262144 + n / 4096 % 64 * 4096 + n / 64 % 64 * 64 + n % 64
  {
    assert n / 4096 == n / 64 / 64 && n / 262144 == n / 64 / 64 / 64;
  }

  lemma LowBitsOfTail(n: nat)
    ensures LowBits(Tail(n)) == n % 64
  {
  }

  lemma BitsOfLead(n: nat)
    ensures n < 0x800 ==> (0xC0 + n / 64) % 32 == n / 64
    ensures n < 0x10000 ==> (0xE0 + n / 4096) % 16 == n / 4096
    ensures n < 0x110000 ==> (0xF0 + n / 262144) % 8 == n / 262144
  {
  }

  lemma PayloadOfEncoded(c: char)
    ensures Payload(EncodeChar(c)) == c as int
  {
    var n := c as int;
    hide LowBits, Tail;
    BySixBits(n);
    BitsOfLead(n);
    LowBitsOfTail(n);
    LowBitsOfTail(n / 64);
    LowBitsOfTail(n / 4096);
  }

  lemma EncodedChar(c: char)
    ensures var b := EncodeChar(c);
            && LengthOf(b[0]) == |b|
            && (forall k :: 1 <= k < |b| ==> IsTail(b[k]))
            && (if |b| == 1 then !IsTail(b[0]) && !IsLead(b[0]) else IsLead(b[0]) && !IsTail(b[0]))
  {
  }

  lemma DecodedChar(c: char)
    ensures DecodeOne(EncodeChar(c)) == [c]
  {
    PayloadOfEncoded(c);
    hide Payload;
  }

  lemma {:induction false} DecodeOfEncode(text: string)
    ensures Decode(Encode(text)) == text
  {
    if text != "" {
      var b, rest := EncodeChar(text[0]), Encode(text[1..]);
      EncodedChar(text[0]);
      DecodedChar(text[0]);
      assert (b + rest)[..|b|] == b && (b + rest)[|b|..] == rest && (b + rest)[0] == b[0];
      DecodeOfEncode(text[1..]);
      hide DecodeOne, EncodeChar, LengthOf;
      assert text == [text[0]] + text[1..];
    }
  }

  /** The examples of section 7 of RFC 3629. */
  lemma KnownEncodings()
    ensures EncodeChar('A') == [0x41]
    ensures EncodeChar('\U{0391}') == [0xCE, 0x91]
    ensures EncodeChar('\U{2262}') == [0xE2, 0x89, 0xA2]
    ensures EncodeChar('\U{D55C}') == [0xED, 0x95, 0x9C]
    ensures EncodeChar('\U{233B4}') == [0xF0, 0xA3, 0x8E, 0xB4]
  {
  }

  /** The byte ranges of section 4 of RFC 3629. */
  lemma EncodedRanges(c: char)
    ensures var b, n := EncodeChar(c), c as int;
            && (n <= 0x7F ==> |b| == 1 && b[0] == n)
            && (0x80 <= n <= 0x7FF ==> |b| == 2 && 0xC2 <= b[0] <= 0xDF)
            && (0x800 <= n <= 0xFFFF ==> |b| == 3 && 0xE0 <= b[0] <= 0xEF)
            && (0x10000 <= n ==> |b| == 4 && 0xF0 <= b[0] <= 0xF4)
            && forall k :: 1 <= k < |b| ==> 0x80 <= b[k] <= 0xBF
  {
  }

  lemma {:induction false} EncodeOfConcat(a: string, b: string)
    ensures Encode(a + b) == Encode(a) + Encode(b)
  {
    hide EncodeChar;
    if a == "" {
      assert a + b == b;
    } else {
      assert (a + b)[1..] == a[1..] + b;
      EncodeOfConcat(a[1..], b);
    }
  }

  // -------------------------------------------------------------------------------------- truncation

  /** Number of bytes of the first `k` characters. */
  function Bytes(text: string, k: nat): nat
    requires k <= |text|
  {
    |Encode(text[..k])|
  }

  /** `k` is the largest number of leading characters that fit. */
  predicate Fits(text: string, budget: nat, k: nat) {
    k <= |text| && Bytes(text, k) <= budget && (k < |text| ==> Bytes(text, k + 1) > budget)
  }

  lemma EncodeOfOne(c: char)
    ensures Encode([c]) == EncodeChar(c)
  {
    hide EncodeChar;
    assert [c][1..] == "" && Encode("") == [];
  }

  lemma EncodeOfParts(before: string, c: char, after: string)
    ensures Encode(before + [c]) == Encode(before) + EncodeChar(c)
    ensures Encode(before + [c] + after) == Encode(before) + EncodeChar(c) + Encode(after)
  {
    EncodeOfConcat(before, [c]);
    EncodeOfOne(c);
    EncodeOfConcat(before + [c], after);
  }

  lemma SplitAround(text: string, k: nat)
    requires k < |text|
    ensures text[..k + 1] == text[..k] + [text[k]]
    ensures text == text[..k] + [text[k]] + text[k + 1..]
  {
  }

  lemma BytesOfNext(text: string, k: nat)
    requires k < |text|
    ensures Encode(text[..k + 1]) == Encode(text[..k]) + EncodeChar(text[k])
    ensures Bytes(text, k + 1) == Bytes(text, k) + Width(text[k])
    ensures Encode(text) == Encode(text[..k]) + EncodeChar(text[k]) + Encode(text[k + 1..])
  {
    hide *;
    EncodeOfParts(text[..k], text[k], text[k + 1..]);
    SplitAround(text, k);
    BytesOfPrefix(text, k);
    BytesOfPrefix(text, k + 1);
  }

  lemma BytesOfPrefix(text: string, k: nat)
    requires k <= |text|
    ensures Bytes(text, k) == |Encode(text[..k])|
  {
  }

  lemma {:induction false} BytesGrow(text: string, j: nat, k: nat)
    requires j < k <= |text|
    ensures Bytes(text, j) < Bytes(text, k)
  {
    hide Bytes;
    BytesOfNext(text, k - 1);
    if j < k - 1 {
      BytesGrow(text, j, k - 1);
    }
  }

  /**
   * How many characters a truncated text keeps: all that fit, except that a multi-byte character which
   * ends exactly at the budget is dropped as well.
   */
  ghost predicate Keeps(text: string, budget: nat, kept: nat) {
    exists k: nat :: Fits(text, budget, k) && k < |text|
      && kept == if Bytes(text, k) == budget && k > 0 && Width(text[k - 1]) > 1 then k - 1 else k
  }

  lemma FitsIsUnique(text: string, budget: nat, j: nat, k: nat)
    requires Fits(text, budget, j) && Fits(text, budget, k)
    ensures j == k
  {
    hide Bytes;
    if j < k {
      if j + 1 < k { BytesGrow(text, j + 1, k); }
    } else if k < j {
      if k + 1 < j { BytesGrow(text, k + 1, j); }
    }
  }

  /** What is kept is determined by the text; it fits, and falls short of the budget by at most four bytes. */
  lemma KeptIsNearBudget(text: string, budget: nat, kept: nat, other: nat)
    requires Keeps(text, budget, kept) && Keeps(text, budget, other)
    ensures kept < |text| && Bytes(text, kept) <= budget <= Bytes(text, kept) + 4
    ensures other == kept
  {
    hide Bytes, Width;
    var k: nat :| Fits(text, budget, k) && k < |text|
      && kept == if Bytes(text, k) == budget && k > 0 && Width(text[k - 1]) > 1 then k - 1 else k;
    forall j: nat | Fits(text, budget, j) ensures j == k {
      FitsIsUnique(text, budget, j, k);
    }
    hide Fits;
    BytesOfNext(text, k);
    if k > 0 {
      BytesOfNext(text, k - 1);
    }
  }

  lemma {:induction false} FitExists(text: string, budget: nat, from: nat) returns (k: nat)
    requires from <= |text| && Bytes(text, from) <= budget < |Encode(text)|
    ensures Fits(text, budget, k) && k < |text|
    decreases |text| - from
  {
    assert text[..|text|] == text;
    hide Encode;
    if Bytes(text, from + 1) > budget {
      k := from;
    } else {
      k := FitExists(text, budget, from + 1);
    }
  }

  lemma KeptExists(text: string, budget: nat)
    requires 0 < budget < |Encode(text)|
    ensures exists kept: nat :: Keeps(text, budget, kept) && kept < |text|
  {
    assert text[..0] == "" && Encode("") == [];
    var k := FitExists(text, budget, 0);
    hide Fits;
    var kept: nat := if Bytes(text, k) == budget && k > 0 && Width(text[k - 1]) > 1 then k - 1 else k;
    assert Keeps(text, budget, kept);
  }

  /** Where the bytes of one character are. */
  lemma BytesOfChar(text: string, k: nat)
    requires k < |text|
    ensures Encode(text[..k]) <= Encode(text) && |Encode(text[..k])| == Bytes(text, k) < Bytes(text, k + 1) <= |Encode(text)|
    ensures Bytes(text, k + 1) - Bytes(text, k) == Width(text[k])
    ensures var at, bytes := Bytes(text, k), Encode(text);
            if Width(text[k]) == 1 then !IsTail(bytes[at]) && !IsLead(bytes[at])
            else IsLead(bytes[at]) && !IsTail(bytes[at]) && forall i :: at < i < Bytes(text, k + 1) ==> IsTail(bytes[i])
  {
    hide *;
    BytesOfNext(text, k);
    BytesOfPrefix(text, k);
    EncodedChar(text[k]);
    var lead := EncodeChar(text[k]);
    var before, after := Encode(text[..k]), Encode(text[k + 1..]);
    assert Encode(text) == before + lead + after;
    forall i | 0 <= i < |lead| ensures (before + lead + after)[|before| + i] == lead[i] {
    }
    forall i | |before| < i < |before| + |lead| ensures IsTail(Encode(text)[i]) {
      assert Encode(text)[|before| + (i - |before|)] == lead[i - |before|];
    }
  }

  lemma LastFitting(text: string, budget: nat, kept: nat) returns (k: nat)
    requires Keeps(text, budget, kept)
    ensures k < |text| && Bytes(text, 0) == 0 && Bytes(text, k) <= budget < Bytes(text, k + 1)
    ensures kept == if Bytes(text, k) == budget && k > 0 && Width(text[k - 1]) > 1 then k - 1 else k
  {
    k :| Fits(text, budget, k) && k < |text|
      && kept == if Bytes(text, k) == budget && k > 0 && Width(text[k - 1]) > 1 then k - 1 else k;
    assert text[..0] == "" && Encode("") == [];
  }

  /** The character a cut falls into, or right behind. */
  lemma CutGoesTo(text: string, budget: nat, kept: nat)
    requires 0 < budget < |Encode(text)| && Keeps(text, budget, kept)
    ensures kept < |text| && Encode(text[..kept]) <= Encode(text) && |Encode(text[..kept])| == Bytes(text, kept)
    ensures var whole, bytes := Bytes(text, kept), Encode(text);
            if whole == budget then !IsTail(bytes[budget - 1]) && !IsLead(bytes[budget - 1])
            else whole < budget && IsLead(bytes[whole]) && !IsTail(bytes[whole]) && forall i :: whole < i < budget ==> IsTail(bytes[i])
  {
    hide *;
    var k := LastFitting(text, budget, kept);
    BytesOfChar(text, k);
    if Bytes(text, k) == budget {
      BytesOfChar(text, k - 1);
    }
  }

  /** The whole-character prefix that truncation has to return. */
  ghost function Cut(text: string, budget: int): string {
    if budget <= 0 then ""
    else if |Encode(text)| <= budget then text
    else
      KeptExists(text, budget);
      var kept: nat :| Keeps(text, budget, kept) && kept < |text|;
      text[..kept]
  }

  lemma CutFits(text: string, budget: int)
    ensures Cut(text, budget) <= text
    ensures |Encode(Cut(text, budget))| <= if budget > 0 then budget else 0
    ensures budget > 0 && Cut(text, budget) != text ==> budget <= |Encode(Cut(text, budget))| + 4
    ensures budget > 0 ==> (Cut(text, budget) == text <==> |Encode(text)| <= budget)
  {
    if 0 < budget < |Encode(text)| {
      KeptExists(text, budget);
      var kept: nat :| Keeps(text, budget, kept);
      CutIs(text, budget, kept);
      KeptIsNearBudget(text, budget, kept, kept);
    }
  }

  lemma NothingToCut(text: string, budget: int)
    ensures budget <= 0 ==> Cut(text, budget) == ""
    ensures 0 < budget && |Encode(text)| <= budget ==> Cut(text, budget) == text
  {
  }

  lemma CutIs(text: string, budget: nat, kept: nat)
    requires 0 < budget < |Encode(text)| && Keeps(text, budget, kept)
    ensures kept < |text| && Cut(text, budget) == text[..kept]
  {
    hide Keeps;
    forall other: nat | Keeps(text, budget, other) ensures other == kept < |text| {
      KeptIsNearBudget(text, budget, kept, other);
    }
  }

  /** The byte loop drops one incomplete or trailing multi-byte sequence and nothing else. */
  method TruncateTextToByteBudget(text: string, maximumBytes: int) returns (r: string)
    ensures r == Cut(text, maximumBytes)
  {
    hide *;
    NothingToCut(text, maximumBytes);
    if maximumBytes <= 0 {
      return "";
    }
    var encoded := Encode(text);
    if |encoded| <= maximumBytes {
      return text;
    }
    var truncated := encoded[..maximumBytes];
    KeptExists(text, maximumBytes);
    ghost var kept: nat :| Keeps(text, maximumBytes, kept);
    CutIs(text, maximumBytes, kept);
    CutGoesTo(text, maximumBytes, kept);
    ghost var whole := Bytes(text, kept);
    while truncated != [] && IsTail(truncated[|truncated| - 1])
      invariant truncated <= encoded
      invariant if whole == maximumBytes then |truncated| == maximumBytes else whole < |truncated| <= maximumBytes
    {
      truncated := truncated[..|truncated| - 1];
    }
    if truncated != [] && IsLead(truncated[|truncated| - 1]) {
      truncated := truncated[..|truncated| - 1];
    }
    assert truncated == Encode(text[..kept]);
    DecodeOfEncode(text[..kept]);
    return Decode(truncated);
  }
}
