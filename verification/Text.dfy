/** The string operations the service borrows from its runtime. */
module Text {

  /** Characters that stripping removes. */
  predicate IsSpace(c: char) {
    var n := c as int;
    || 0x09 <= n <= 0x0D || 0x1C <= n <= 0x20 || n == 0x85 || n == 0xA0 || n == 0x1680
    || 0x2000 <= n <= 0x200A || n == 0x2028 || n == 0x2029 || n == 0x202F || n == 0x205F || n == 0x3000
  }

  /** White space one by one: the control characters, the blank, and the wider spaces of Unicode. */
  lemma SpacesAre(c: char)
    ensures IsSpace(c) <==>
            c in "\t\n\U{0B}\U{0C}\r\U{1C}\U{1D}\U{1E}\U{1F} \U{85}\U{A0}\U{1680}"
                 + "\U{2000}\U{2001}\U{2002}\U{2003}\U{2004}\U{2005}\U{2006}\U{2007}\U{2008}\U{2009}\U{200A}\U{2028}\U{2029}\U{202F}\U{205F}\U{3000}"
  {
  }

  function StripLeft(s: string): (r: string)
    ensures r == [] || !IsSpace(r[0])
  {
    if s != [] && IsSpace(s[0]) then StripLeft(s[1..]) else s
  }

  function StripRight(s: string): (r: string)
    ensures r == [] || !IsSpace(r[|r| - 1])
  {
    if s != [] && IsSpace(s[|s| - 1]) then StripRight(s[..|s| - 1]) else s
  }

  function Strip(s: string): string {
    StripRight(StripLeft(s))
  }

  /** Stripping leaves exactly the strings alone that neither begin nor end with white space. */
  predicate Trimmed(s: string) {
    s == [] || (!IsSpace(s[0]) && !IsSpace(s[|s| - 1]))
  }

  lemma StripLeftKeepsEnd(s: string)
    ensures var r := StripLeft(s);
            && |r| <= |s| && (r != [] ==> r[|r| - 1] == s[|s| - 1])
            && (r == s <==> s == [] || !IsSpace(s[0]))
  {
  }

  lemma StripRightKeepsStart(s: string)
    ensures var r := StripRight(s);
            && |r| <= |s| && (r != [] ==> r[0] == s[0])
            && (r == s <==> s == [] || !IsSpace(s[|s| - 1]))
  {
  }

  lemma StripOfTrimmed(s: string)
    ensures Trimmed(Strip(s))
    ensures Strip(s) == s <==> Trimmed(s)
    ensures |Strip(s)| <= |s|
  {
    StripLeftKeepsEnd(s);
    StripRightKeepsStart(StripLeft(s));
    hide IsSpace;
  }

  lemma StripShortens(s: string)
    ensures |Strip(s)| == |s| ==> Strip(s) == s
  {
    StripLeftKeepsEnd(s);
    StripRightKeepsStart(StripLeft(s));
    if s != [] {
      StripLeftKeepsEnd(s[1..]);
    }
    var l := StripLeft(s);
    if l != [] {
      StripRightKeepsStart(l[..|l| - 1]);
    }
  }

  function ToLower(c: char): char {
    if 'A' <= c <= 'Z' then (c as int + 32) as char else c
  }

  function Lower(s: string): (r: string)
    ensures |r| == |s| && forall i :: 0 <= i < |s| ==> r[i] == ToLower(s[i])
  {
    seq(|s|, i requires 0 <= i < |s| => ToLower(s[i]))
  }

  function ToUpper(c: char): char {
    if 'a' <= c <= 'z' then (c as int - 32) as char else c
  }

  function Upper(s: string): (r: string)
    ensures |r| == |s| && forall i :: 0 <= i < |s| ==> r[i] == ToUpper(s[i])
  {
    seq(|s|, i requires 0 <= i < |s| => ToUpper(s[i]))
  }

  const CAPITALS := "ABCDEFGHIJKLMNOPQRSTUVWXYZ"
  const SMALL := "abcdefghijklmnopqrstuvwxyz"

  /** Letters change case in pairs, and nothing else changes. */
  lemma CasesArePairs(c: char)
    ensures forall k :: 0 <= k < 26 ==> ToLower(CAPITALS[k]) == SMALL[k] && ToUpper(SMALL[k]) == CAPITALS[k]
    ensures c !in CAPITALS ==> ToLower(c) == c
    ensures c !in SMALL ==> ToUpper(c) == c
  {
    assert 'A' <= c <= 'Z' ==> CAPITALS[c as int - 'A' as int] == c;
    assert 'a' <= c <= 'z' ==> SMALL[c as int - 'a' as int] == c;
  }

  function Normalize(s: string): string {
    Lower(Strip(s))
  }

  /** A string that normalizing leaves alone. */
  predicate Normal(s: string) {
    Trimmed(s) && forall i :: 0 <= i < |s| ==> ToLower(s[i]) == s[i]
  }

  lemma LowerFacts(s: string)
    ensures Trimmed(s) ==> Normal(Lower(s))
    ensures Normal(s) ==> Lower(s) == s
  {
    var n := Lower(s);
    forall i | 0 <= i < |s| ensures ToLower(n[i]) == n[i] && IsSpace(n[i]) == IsSpace(s[i]) {
    }
    if Normal(s) {
      assert n == s;
    }
  }

  lemma NormalizeOfNormal(s: string)
    ensures Normal(s) ==> Normalize(s) == s
    ensures Normal(Normalize(s))
  {
    StripOfTrimmed(s);
    LowerFacts(s);
    LowerFacts(Strip(s));
    hide Strip, Lower, Trimmed;
  }

  /** The first position of `c`, or the length. */
  function Find(s: string, c: char): (i: nat)
    ensures i <= |s| && c !in s[..i]
    ensures i < |s| ==> s[i] == c
  {
    if s == [] then 0
    else if s[0] == c then 0
    else
      var i := 1 + Find(s[1..], c);
      assert s[..i] == [s[0]] + s[1..][..i - 1];
      i
  }

  lemma {:induction false} FindIsFirst(s: string, c: char, i: nat)
    requires i <= |s| && c !in s[..i] && (i < |s| ==> s[i] == c)
    ensures Find(s, c) == i
  {
    if i > 0 {
      assert s[..i][0] == s[0];
      assert s[1..][..i - 1] == s[..i][1..];
      FindIsFirst(s[1..], c, i - 1);
    }
  }

  /** Splitting at the first `c` undoes joining with it. */
  lemma FindInJoin(l: string, c: char, r: string)
    requires c !in l
    ensures var s := l + [c] + r;
            Find(s, c) == |l| && s[..|l|] == l && s[|l| + 1..] == r
  {
    var s := l + [c] + r;
    assert s[..|l|] == l;
    FindIsFirst(s, c, |l|);
  }
}
