/** Scanners that look for a verification code in mail text, one left-to-right pass each. */
module CodeMatcher {
  import opened Wrappers
  import opened Text

  predicate IsAlphanumeric(c: char) {
    '0' <= c <= '9' || 'A' <= c <= 'Z' || 'a' <= c <= 'z'
  }

  lemma AlphanumericIff(c: char)
    ensures IsAlphanumeric(c) <==> c in "0123456789" + "ABCDEFGHIJKLMNOPQRSTUVWXYZ" + "abcdefghijklmnopqrstuvwxyz"
  {
  }

  /** `text[i..j]` is a run of characters of the class that cannot be extended on either side. */
  predicate IsRun(text: string, inClass: char -> bool, i: int, j: int) {
    && 0 <= i < j <= |text|
    && (forall k :: i <= k < j ==> inClass(text[k]))
    && (i == 0 || !inClass(text[i - 1]))
    && (j == |text| || !inClass(text[j]))
  }

  function SkipWhile(text: string, inClass: char -> bool, i: nat): (end: nat)
    requires i <= |text|
    ensures i <= end <= |text|
    ensures forall k :: i <= k < end ==> inClass(text[k])
    ensures end < |text| ==> !inClass(text[end])
    decreases |text| - i
  {
    if i < |text| && inClass(text[i]) then SkipWhile(text, inClass, i + 1) else i
  }

  method EndOfRun(text: string, inClass: char -> bool, from: nat) returns (index: nat)
    requires from <= |text|
    ensures index == SkipWhile(text, inClass, from)
  {
    index := from;
    while index < |text| && inClass(text[index])
      invariant from <= index <= |text|
      invariant SkipWhile(text, inClass, index) == SkipWhile(text, inClass, from)
    {
      index := index + 1;
    }
  }

  // ---------------------------------------------------------------------- codes of the form ABC-123

  /** Two maximal runs of three letters or digits, joined by one dash. */
  predicate PairAt(text: string, i: int) {
    IsRun(text, IsAlphanumeric, i, i + 3) && i + 3 < |text| && text[i + 3] == '-' && IsRun(text, IsAlphanumeric, i + 4, i + 7)
  }

  /** The rest of the text goes on with the label "xAI", in any case and after any white space. */
  predicate LabelFollows(text: string, i: nat)
    requires i <= |text|
  {
    var rest := StripLeft(text[i..]);
    |rest| >= 3 && Upper(rest[..3]) == "XAI" && (|rest| == 3 || !IsAlphanumeric(rest[3]))
  }

  /** The label is the next word after any white space, and not the beginning of a longer one. */
  lemma LabelIff(text: string, i: nat, j: nat)
    requires i <= j <= |text| && (forall k :: i <= k < j ==> IsSpace(text[k])) && (j < |text| ==> !IsSpace(text[j]))
    ensures LabelFollows(text, i) <==>
            && j + 3 <= |text| && text[j] in "xX" && text[j + 1] in "aA" && text[j + 2] in "iI"
            && (j + 3 < |text| ==> !IsAlphanumeric(text[j + 3]))
  {
    StripsTo(text, i, j);
    var rest := text[j..];
    assert |rest| >= 3 ==> rest[0] == text[j] && rest[1] == text[j + 1] && rest[2] == text[j + 2];
    assert |rest| > 3 ==> rest[3] == text[j + 3];
    hide IsAlphanumeric, StripLeft, IsSpace;
    assert |rest| >= 3 ==> (Upper(rest[..3]) == "XAI" <==> rest[0] in "xX" && rest[1] in "aA" && rest[2] in "iI");
  }

  lemma {:induction false} StripsTo(text: string, i: nat, j: nat)
    requires i <= j <= |text| && (forall k :: i <= k < j ==> IsSpace(text[k])) && (j < |text| ==> !IsSpace(text[j]))
    ensures StripLeft(text[i..]) == text[j..]
    decreases j - i
  {
    hide IsSpace;
    if i < j {
      StripsTo(text, i + 1, j);
      assert text[i..][1..] == text[i + 1..];
    }
  }

  /** The scan jumps over a pair as a whole, so it misses a pair whose first half was the second half of a visited one. */
  predicate Visited(text: string, i: int)
    decreases i
  {
    PairAt(text, i) && (i < 4 || !Visited(text, i - 4))
  }

  predicate Found(text: string, labelled: bool, i: int) {
    Visited(text, i) && (labelled ==> LabelFollows(text, i + 7))
  }

  predicate IsFirstFound(text: string, labelled: bool, i: int) {
    Found(text, labelled, i) && forall k :: 0 <= k < i ==> !Found(text, labelled, k)
  }

  /** The code in capitals: three letters or digits, a dash, and three more. */
  function CodeAt(text: string, i: int): (code: string)
    requires PairAt(text, i)
    ensures |code| == 7 && code[3] == '-'
    ensures forall k :: 0 <= k < 7 ==> code[k] == ToUpper(text[i + k]) && (k != 3 ==> '0' <= code[k] <= '9' || 'A' <= code[k] <= 'Z')
  {
    Upper(text[i..i + 3]) + "-" + Upper(text[i + 4..i + 7])
  }

  lemma RunsStartingWithin(text: string, start: nat, end: nat)
    requires start <= |text| && end == SkipWhile(text, IsAlphanumeric, start)
    ensures forall k :: start < k < end ==> !PairAt(text, k)
    ensures PairAt(text, start) ==> end == start + 3 < |text| && text[end] == '-' && SkipWhile(text, IsAlphanumeric, end + 1) == end + 4
    ensures end < |text| ==> !PairAt(text, end)
  {
  }

  lemma PairsFit(text: string)
    ensures forall i :: PairAt(text, i) ==> 0 <= i && i + 7 <= |text| && IsAlphanumeric(text[i])
  {
  }

  lemma TwoRunsMakeAPair(text: string, start: nat)
    requires start + 3 < |text| && text[start + 3] == '-' && (start == 0 || !IsAlphanumeric(text[start - 1]))
    requires SkipWhile(text, IsAlphanumeric, start) == start + 3 && SkipWhile(text, IsAlphanumeric, start + 4) == start + 7
    ensures PairAt(text, start)
  {
  }

  /** Nothing is found before position `n`, and no visited pair reaches beyond it. */
  ghost predicate Scanned(text: string, labelled: bool, n: nat) {
    && (forall k :: k < n ==> !Found(text, labelled, k))
    && (forall k :: k < n && Visited(text, k) ==> k + 7 <= n)
  }

  lemma ScanOn(text: string, labelled: bool, n: nat, m: nat)
    requires Scanned(text, labelled, n) && n <= m && forall k :: n <= k < m ==> !PairAt(text, k)
    ensures Scanned(text, labelled, m)
  {
    hide PairAt, LabelFollows;
  }

  lemma NothingScanned(text: string, labelled: bool)
    ensures Scanned(text, labelled, 0)
  {
  }

  lemma AllScanned(text: string, labelled: bool)
    requires Scanned(text, labelled, |text|)
    ensures forall i :: !Found(text, labelled, i)
  {
    hide LabelFollows;
  }

  lemma ScanPair(text: string, labelled: bool, n: nat)
    requires Scanned(text, labelled, n) && PairAt(text, n)
    ensures Visited(text, n)
    ensures if labelled ==> LabelFollows(text, n + 7) then IsFirstFound(text, labelled, n) else Scanned(text, labelled, n + 7)
  {
    hide LabelFollows;
    forall k | n < k < n + 7 ensures !Visited(text, k) {
    }
  }

  /** No text position is looked at more than twice; `steps` counts the iterations of all loops together. */
  method MatchXaiToken(text: string, labelled: bool) returns (code: Option<string>, ghost steps: nat)
    ensures code.Some? ==> exists i :: IsFirstFound(text, labelled, i) && code.value == CodeAt(text, i)
    ensures code.None? ==> forall i :: !Found(text, labelled, i)
    ensures steps <= 2 * |text|
  {
    hide IsAlphanumeric, PairAt, LabelFollows, CodeAt, Scanned, Visited, IsFirstFound;
    PairsFit(text);
    var index := 0;
    steps := 0;
    NothingScanned(text, labelled);
    while index < |text|
      invariant index <= |text| && steps <= 2 * index
      invariant 0 < index < |text| && IsAlphanumeric(text[index]) ==> !IsAlphanumeric(text[index - 1])
      invariant Scanned(text, labelled, index)
    {
      steps := steps + 1;
      var start := index;
      if !IsAlphanumeric(text[index]) {
        index := index + 1;
        ScanOn(text, labelled, start, index);
        continue;
      }
      index := EndOfRun(text, IsAlphanumeric, start);
      steps := steps + (index - start);
      RunsStartingWithin(text, start, index);
      if index - start != 3 {
        ScanOn(text, labelled, start, index);
        continue;
      }
      if index >= |text| || text[index] != '-' {
        ScanOn(text, labelled, start, index);
        continue;
      }
      index := index + 1;
      var second := index;
      index := EndOfRun(text, IsAlphanumeric, second);
      steps := steps + (index - second);
      RunsStartingWithin(text, second, index);
      if index - second != 3 {
        ScanOn(text, labelled, start, index);
        continue;
      }
      TwoRunsMakeAPair(text, start);
      ScanPair(text, labelled, start);
      if labelled && !LabelFollows(text, index) {
        continue;
      }
      return Some(CodeAt(text, start)), steps;
    }
    AllScanned(text, labelled);
    code := None;
  }

  /** Without a label the scan is complete: what it finds first is the leftmost pair there is. */
  lemma {:induction false} UnlabelledFindsLeftmostPair(text: string, i: int)
    ensures IsFirstFound(text, false, i) <==> PairAt(text, i) && forall k :: 0 <= k < i ==> !PairAt(text, k)
    ensures PairAt(text, i) ==> exists k :: Found(text, false, k)
    decreases i
  {
    if PairAt(text, i) {
      if i >= 4 && Visited(text, i - 4) {
        assert Found(text, false, i - 4);
      } else {
        assert Found(text, false, i);
      }
    }
    if IsFirstFound(text, false, i) {
      forall k | 0 <= k < i ensures !PairAt(text, k) {
        assert !Found(text, false, k) && (k >= 4 ==> !Found(text, false, k - 4));
      }
    }
  }

  /** Number of pairs that follow one another directly, each sharing a half with the next, up to the one at `i`. */
  function PairsBefore(text: string, i: int): nat
    decreases i
  {
    if i >= 4 && PairAt(text, i - 4) then 1 + PairsBefore(text, i - 4) else 0
  }

  /** With a label the scan is not complete: it meets a labelled pair iff an even number of pairs leads up to it. */
  lemma {:induction false} LabelledPairIsFoundIff(text: string, i: int)
    requires PairAt(text, i)
    ensures Visited(text, i) <==> PairsBefore(text, i) % 2 == 0
    ensures LabelFollows(text, i + 7) ==> (Found(text, true, i) <==> PairsBefore(text, i) % 2 == 0)
    decreases i
  {
    if i >= 4 && PairAt(text, i - 4) {
      LabelledPairIsFoundIff(text, i - 4);
    }
    hide PairAt, LabelFollows;
  }

  const MissedExample := "AAA-BBB-CCC xAI"

  lemma PairsOfExample()
    ensures forall i :: PairAt(MissedExample, i) <==> i == 0 || i == 4
  {
    assert MissedExample[3] == '-' && MissedExample[7] == '-' && MissedExample[11] == ' ';
  }

  /** The pair before this label is overlooked. */
  lemma LabelledPairCanBeMissed()
    ensures PairAt(MissedExample, 4) && LabelFollows(MissedExample, 11)
    ensures forall i :: !Found(MissedExample, true, i)
  {
    PairsOfExample();
    hide PairAt;
    assert MissedExample[11..][1..] == "xAI" && Upper("xAI") == "XAI";
    assert MissedExample[7..][0] == '-';
    assert Visited(MissedExample, 0);
  }

  /** Non-empty parts of a message, one per line. */
  function Joined(subject: string, body: string): string {
    if subject == "" then body else if body == "" then subject else subject + "\n" + body
  }

  /** Subject and body stand on lines of their own. */
  lemma JoinedParts(subject: string, body: string)
    ensures subject != "" && body != "" ==>
              var text := Joined(subject, body);
              && |text| == |subject| + 1 + |body| && text[..|subject|] == subject && text[|subject|] == '\n' && text[|subject| + 1..] == body
    ensures subject == "" ==> Joined(subject, body) == body
    ensures body == "" ==> Joined(subject, body) == subject
  {
  }

  lemma SubjectPairsAreJoinedPairs(subject: string, body: string, i: int)
    requires PairAt(subject, i)
    ensures PairAt(Joined(subject, body), i)
  {
    var text := Joined(subject, body);
    assert text[..|subject|] == subject;
    assert forall k :: 0 <= k < |subject| ==> text[k] == subject[k];
    assert |subject| < |text| ==> text[|subject|] == '\n';
  }

  /** A labelled code in the subject comes first; otherwise the leftmost code of subject and body. */
  method SearchXai(subject: string, body: string) returns (code: Option<string>)
    ensures code.None? <==> forall i :: !PairAt(Joined(subject, body), i)
    ensures code.Some? ==> exists i :: PairAt(Joined(subject, body), i) && code.value == CodeAt(Joined(subject, body), i)
    ensures (exists i :: IsFirstFound(subject, true, i)) ==>
              exists i :: IsFirstFound(subject, true, i) && code == Some(CodeAt(subject, i))
    ensures (forall i :: !Found(subject, true, i)) && code.Some? ==>
              var text := Joined(subject, body);
              exists i :: PairAt(text, i) && code.value == CodeAt(text, i) && forall k :: 0 <= k < i ==> !PairAt(text, k)
  {
    hide LabelFollows;
    ghost var text := Joined(subject, body);
    var labelled, _ := MatchXaiToken(subject, true);
    if labelled.Some? {
      ghost var i :| IsFirstFound(subject, true, i) && labelled.value == CodeAt(subject, i);
      SubjectPairsAreJoinedPairs(subject, body, i);
      assert text[i..i + 3] == subject[i..i + 3] && text[i + 4..i + 7] == subject[i + 4..i + 7];
      return labelled;
    }
    ghost var steps;
    code, steps := MatchXaiToken(Joined(subject, body), false);
    if code.Some? {
      ghost var i :| IsFirstFound(text, false, i) && code.value == CodeAt(text, i);
      UnlabelledFindsLeftmostPair(text, i);
    } else {
      forall i ensures !PairAt(text, i) {
        UnlabelledFindsLeftmostPair(text, i);
      }
    }
  }

  // ----------------------------------------------------------------------------------- other tokens

  predicate InBounds(length: int, min: nat, max: nat) {
    min <= length <= max
  }

  /** The leftmost maximal run whose length is within bounds. */
  ghost predicate IsFirstToken(text: string, inClass: char -> bool, min: nat, max: nat, i: int, j: int) {
    && IsRun(text, inClass, i, j) && InBounds(j - i, min, max)
    && forall k, l :: k < i && IsRun(text, inClass, k, l) ==> !InBounds(l - k, min, max)
  }

  method SearchToken(text: string, inClass: char -> bool, min: nat, max: nat) returns (token: Option<string>, ghost steps: nat)
    ensures token.Some? ==> exists i, j :: IsFirstToken(text, inClass, min, max, i, j) && token.value == text[i..j]
    ensures token.None? ==> forall i, j :: IsRun(text, inClass, i, j) ==> !InBounds(j - i, min, max)
    ensures steps <= 2 * |text|
  {
    var index := 0;
    steps := 0;
    while index < |text|
      invariant index <= |text| && steps <= 2 * index
      invariant 0 < index < |text| && inClass(text[index]) ==> !inClass(text[index - 1])
      invariant forall i, j :: i < index && IsRun(text, inClass, i, j) ==> !InBounds(j - i, min, max)
    {
      steps := steps + 1;
      if !inClass(text[index]) {
        index := index + 1;
        continue;
      }
      var start := index;
      index := EndOfRun(text, inClass, start);
      steps := steps + (index - start);
      assert IsRun(text, inClass, start, index);
      forall i, j | start <= i < index && IsRun(text, inClass, i, j) ensures i == start && j == index {
        RunsAreDisjoint(text, inClass, start, index, i, j);
      }
      if min <= index - start <= max {
        assert IsFirstToken(text, inClass, min, max, start, index);
        return Some(text[start..index]), steps;
      }
    }
    return None, steps;
  }

  /** Two maximal runs are equal or apart. */
  lemma RunsAreDisjoint(text: string, inClass: char -> bool, i: int, j: int, k: int, l: int)
    requires IsRun(text, inClass, i, j) && IsRun(text, inClass, k, l) && i <= k < j
    ensures i == k && j == l
  {
  }

  /** The prefix stands at `i`, in any case. */
  predicate Occurs(text: string, prefix: string, i: int) {
    0 <= i && i + |prefix| <= |text| && Lower(text)[i..i + |prefix|] == Lower(prefix)
  }

  /** A code directly after the prefix or after white space. */
  function CodeAfter(text: string, inClass: char -> bool, min: nat, max: nat, from: nat): Option<string>
    requires from <= |text|
  {
    var start := SkipWhile(text, IsSpace, from);
    var end := SkipWhile(text, inClass, start);
    if min <= end - start <= max then Some(text[start..end]) else None
  }

  /** After the prefix comes a code exactly if, behind any white space, a run of the class of fitting length stands, and then all of it is the code. */
  lemma CodeAfterIff(text: string, inClass: char -> bool, min: nat, max: nat, from: nat, start: nat, end: nat)
    requires from <= start <= end <= |text|
    requires (forall k :: from <= k < start ==> IsSpace(text[k])) && (start < |text| ==> !IsSpace(text[start]))
    requires (forall k :: start <= k < end ==> inClass(text[k])) && (end < |text| ==> !inClass(text[end]))
    ensures CodeAfter(text, inClass, min, max, from) == if min <= end - start <= max then Some(text[start..end]) else None
  {
    SkipsTo(text, IsSpace, from, start);
    SkipsTo(text, inClass, start, end);
    hide IsSpace, SkipWhile;
  }

  lemma SkipsTo(text: string, inClass: char -> bool, i: nat, end: nat)
    requires i <= end <= |text| && (forall k :: i <= k < end ==> inClass(text[k])) && (end < |text| ==> !inClass(text[end]))
    ensures SkipWhile(text, inClass, i) == end
  {
    hide SkipWhile;
    var e := SkipWhile(text, inClass, i);
    assert !(e < end) && !(end < e);
  }

  method ReadCodeAt(text: string, inClass: char -> bool, min: nat, max: nat, from: nat) returns (code: Option<string>)
    requires from <= |text|
    ensures code == CodeAfter(text, inClass, min, max, from)
  {
    var start := EndOfRun(text, IsSpace, from);
    var index := EndOfRun(text, inClass, start);
    if min <= index - start <= max {
      return Some(text[start..index]);
    }
    return None;
  }

  method FindFrom(text: string, prefix: string, from: nat) returns (at: Option<nat>)
    ensures at.Some? ==> Occurs(text, prefix, at.value) && from <= at.value
    ensures forall k :: from <= k && (at.Some? ==> k < at.value) ==> !Occurs(text, prefix, k)
  {
    var i := from;
    var lower, wanted := Lower(text), Lower(prefix);
    while i + |prefix| <= |text|
      invariant from <= i
      invariant forall k :: from <= k < i ==> !Occurs(text, prefix, k)
    {
      if lower[i..i + |prefix|] == wanted {
        return Some(i);
      }
      i := i + 1;
    }
    return None;
  }

  /** Tries every occurrence of the prefix from the left until one is followed by a code. */
  method SearchWithPrefix(text: string, prefix: string, inClass: char -> bool, min: nat, max: nat) returns (code: Option<string>)
    ensures code.Some? ==>
              exists i :: Occurs(text, prefix, i) && CodeAfter(text, inClass, min, max, i + |prefix|) == code
                && forall k :: 0 <= k < i && Occurs(text, prefix, k) ==> CodeAfter(text, inClass, min, max, k + |prefix|).None?
    ensures code.None? ==>
              forall k :: 0 <= k && Occurs(text, prefix, k) ==> CodeAfter(text, inClass, min, max, k + |prefix|).None?
  {
    hide CodeAfter;
    var searchFrom := 0;
    while true
      invariant searchFrom <= |text| + 1
      invariant forall k :: 0 <= k < searchFrom && Occurs(text, prefix, k) ==> CodeAfter(text, inClass, min, max, k + |prefix|).None?
      decreases |text| + 1 - searchFrom
    {
      var at := FindFrom(text, prefix, searchFrom);
      if at.None? {
        return None;
      }
      code := ReadCodeAt(text, inClass, min, max, at.value + |prefix|);
      if code.Some? {
        return code;
      }
      searchFrom := at.value + 1;
    }
  }
}
