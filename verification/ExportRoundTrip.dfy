/** When a whole file of exported credentials restores them: exactly if each of them is portable. */
module ExportRoundTrip {
  import opened Wrappers
  import opened Text
  import opened ImportLine
  import opened MailboxImport

  /** Assumed of the address library: the address on this line has a normal form no longer than itself, which stays as it is. */
  predicate NormalizesLine(raw: string, validate: Validator) {
    && NoLonger(raw, validate)
    && var s := Segments(raw);
       |s| == 4 && validate(s[0]).Some? ==> validate(validate(s[0]).value) == validate(s[0])
  }

  predicate NormalizesAll(lines: seq<string>, validate: Validator) {
    forall k :: 0 <= k < |lines| ==> NormalizesLine(lines[k], validate)
  }

  lemma NormalizesEach(lines: seq<string>, validate: Validator)
    requires NormalizesAll(lines, validate)
    ensures forall k :: 0 <= k < |lines| ==> NormalizesLine(lines[k], validate)
  {
  }

  // ------------------------------------------------------------------------ what lines are made of

  function Length(lines: seq<string>, n: nat): nat
    requires n <= |lines|
  {
    if n == 0 then 0 else Length(lines, n - 1) + |lines[n - 1]|
  }

  /** Number of characters that do not end a line. */
  function NonBreaks(s: string): (n: nat)
    ensures n <= |s| && (n == |s| <==> NoBreak(s))
  {
    if s == "" then 0
    else
      var rest := NonBreaks(s[1..]);
      assert NoBreak(s) <==> !IsBreak(s[0]) && NoBreak(s[1..]) by {
        assert forall i :: 1 <= i < |s| ==> s[i] == s[1..][i - 1];
        assert forall i :: 0 <= i < |s| - 1 ==> s[1..][i] == s[i + 1];
      }
      if IsBreak(s[0]) then rest else 1 + rest
  }

  lemma {:induction false} NonBreaksOfConcat(a: string, b: string)
    ensures NonBreaks(a + b) == NonBreaks(a) + NonBreaks(b)
  {
    hide IsBreak;
    if a == "" {
      assert a + b == b;
    } else {
      assert (a + b)[1..] == a[1..] + b;
      NonBreaksOfConcat(a[1..], b);
    }
  }

  lemma {:induction false} LengthOfCons(line: string, lines: seq<string>, n: nat)
    requires n <= |lines|
    ensures Length([line] + lines, n + 1) == |line| + Length(lines, n)
  {
    if n > 0 {
      LengthOfCons(line, lines, n - 1);
    }
  }

  function EndOfBreak(s: string, f: nat): (n: nat)
    requires f < |s|
    ensures f < n <= |s| && n <= f + 2
  {
    if s[f] == '\r' && f + 1 < |s| && s[f + 1] == '\n' then f + 2 else f + 1
  }

  lemma LinesFrom(s: string)
    requires FindBreak(s) < |s|
    ensures var f := FindBreak(s); SplitLines(s) == [s[..f]] + SplitLines(s[EndOfBreak(s, f)..])
  {
    hide FindBreak;
  }

  lemma OnlyBreaks(s: string, f: nat)
    requires f < |s| && IsBreak(s[f])
    ensures forall i :: f <= i < EndOfBreak(s, f) ==> IsBreak(s[i])
  {
    assert IsBreak('\n');
    hide IsBreak;
  }

  lemma FirstOfLines(s: string) returns (head: string, end: string, tail: string)
    requires !NoBreak(s)
    ensures s == head + (end + tail) && |tail| < |s|
    ensures NoBreak(head) && |end| <= 2 && (forall i :: 0 <= i < |end| ==> IsBreak(end[i]))
    ensures SplitLines(s) == [head] + SplitLines(tail)
  {
    hide SplitLines, IsBreak, FindBreak, EndOfBreak;
    var f := FindBreak(s);
    LinesFrom(s);
    OnlyBreaks(s, f);
    head, end, tail := s[..f], s[f..EndOfBreak(s, f)], s[EndOfBreak(s, f)..];
    assert s == head + (end + tail);
  }

  lemma OnlyLine(s: string)
    requires NoBreak(s)
    ensures SplitLines(s) == if s == "" then [] else [s]
  {
    hide IsBreak;
  }

  /** Splitting into lines loses just the characters that end lines. */
  lemma {:induction false} LengthOfLines(s: string)
    ensures Length(SplitLines(s), |SplitLines(s)|) == NonBreaks(s)
    decreases |s|
  {
    hide IsBreak, SplitLines, NoBreak;
    if NoBreak(s) {
      OnlyLine(s);
      assert Length([s], 1) == Length([s], 0) + |s|;
    } else {
      var head, end, tail := FirstOfLines(s);
      LengthOfLines(tail);
      LengthOfCons(head, SplitLines(tail), |SplitLines(tail)|);
      BreakHasNoNonBreaks(end);
      NonBreaksOfConcat(head, end + tail);
      NonBreaksOfConcat(end, tail);
    }
  }

  lemma BreakHasNoNonBreaks(s: string)
    requires |s| <= 2 && forall i :: 0 <= i < |s| ==> IsBreak(s[i])
    ensures NonBreaks(s) == 0
  {
    if s != "" {
      assert s[1..] == "" || s[1..] == [s[1]];
    }
  }

  /** Sum of the non-breaking characters of the lines. */
  function NonBreaksIn(lines: seq<string>): nat {
    if lines == [] then 0 else NonBreaks(lines[0]) + NonBreaksIn(lines[1..])
  }

  lemma {:induction false} NonBreaksOfJoin(lines: seq<string>)
    ensures NonBreaks(JoinLines(lines)) == NonBreaksIn(lines)
  {
    assert IsBreak("\n"[0]);
    hide IsBreak;
    if |lines| > 1 {
      NonBreaksOfJoin(lines[1..]);
      NonBreaksOfConcat(lines[0] + "\n", JoinLines(lines[1..]));
      NonBreaksOfConcat(lines[0], "\n");
      BreakHasNoNonBreaks("\n");
    }
  }

  // ------------------------------------------------------------------------------ what lines become

  /** The credentials of the well-formed lines among the first `n`. */
  function Parsed(lines: seq<string>, n: nat, validate: Validator): seq<Credentials>
    requires n <= |lines|
  {
    if n == 0 then []
    else if Strip(lines[n - 1]) == "" || Parse(lines[n - 1], validate).Err? then Parsed(lines, n - 1, validate)
    else Parsed(lines, n - 1, validate) + [Parse(lines[n - 1], validate).value]
  }

  predicate DistinctEmails(cs: seq<Credentials>) {
    forall i, j :: 0 <= i < j < |cs| ==> cs[i].email != cs[j].email
  }

  /** After lines without any error, the table holds just the credentials of these lines, each under its own address. */
  predicate Mirrors(b: Batch, cs: seq<Credentials>) {
    && b.created == |cs| && DistinctEmails(cs) && b.seen == b.rows.Keys
    && (forall i :: 0 <= i < |cs| ==> cs[i].email in b.rows && b.rows[cs[i].email] == NewRow(cs[i]))
    && (forall e :: e in b.rows ==> exists i :: 0 <= i < |cs| && cs[i].email == e)
  }

  predicate NotRefused(raw: string, validate: Validator) {
    Strip(raw) == "" || Parse(raw, validate).Ok?
  }

  lemma MirrorNext(b: Batch, number: nat, raw: string, validate: Validator, options: Options, cs: seq<Credentials>)
    requires Mirrors(b, cs) && Next(b, number, raw, validate, options).errors == []
    ensures b.errors == [] && NotRefused(raw, validate)
    ensures Mirrors(Next(b, number, raw, validate, options), if Strip(raw) == "" then cs else cs + [Parse(raw, validate).value])
  {
    hide Strip, Parse, NewRow;
    var v := Next(b, number, raw, validate, options);
    if Strip(raw) != "" {
      var c := Parse(raw, validate).value;
      var ds := cs + [c];
      assert ds[|cs|] == c && forall i :: 0 <= i < |cs| ==> ds[i] == cs[i];
      assert v.rows == b.rows[c.email := NewRow(c)];
      forall e | e in v.rows ensures exists i :: 0 <= i < |ds| && ds[i].email == e {
        if e in b.rows {
          var i :| 0 <= i < |cs| && cs[i].email == e;
          assert ds[i].email == e;
        }
      }
    }
  }

  lemma {:induction false} TableMirrorsLines(lines: seq<string>, n: nat, validate: Validator, options: Options)
    requires n <= |lines| && After(map[], lines, n, validate, options).errors == []
    ensures Mirrors(After(map[], lines, n, validate, options), Parsed(lines, n, validate))
    ensures forall k :: 0 <= k < n ==> NotRefused(lines[k], validate)
  {
    hide Strip, Parse, Next, Mirrors;
    if n == 0 {
      MirrorsNothing();
    } else {
      ErrorsStay(After(map[], lines, n - 1, validate, options), n, lines[n - 1], validate, options);
      TableMirrorsLines(lines, n - 1, validate, options);
      MirrorNext(After(map[], lines, n - 1, validate, options), n, lines[n - 1], validate, options, Parsed(lines, n - 1, validate));
    }
  }

  lemma MirrorsNothing()
    ensures Mirrors(Start(map[]), [])
  {
  }

  lemma ErrorsStay(b: Batch, number: nat, raw: string, validate: Validator, options: Options)
    ensures Next(b, number, raw, validate, options).errors == [] ==> b.errors == []
  {
    hide Strip, Parse;
  }

  // ------------------------------------------------------------------------------------- measures

  function Total(cs: seq<Credentials>, size: Credentials -> nat): nat {
    if cs == [] then 0 else size(cs[0]) + Total(cs[1..], size)
  }

  lemma {:induction false} TotalOfConcat(a: seq<Credentials>, b: seq<Credentials>, size: Credentials -> nat)
    ensures Total(a + b, size) == Total(a, size) + Total(b, size)
  {
    if a == [] {
      assert a + b == b;
    } else {
      assert (a + b)[1..] == a[1..] + b;
      TotalOfConcat(a[1..], b, size);
    }
  }

  lemma Around(b: seq<Credentials>, x: Credentials) returns (l: seq<Credentials>, r: seq<Credentials>)
    requires x in b
    ensures b == l + ([x] + r)
  {
    var i :| 0 <= i < |b| && b[i] == x;
    l, r := b[..i], b[i + 1..];
  }

  lemma MultisetOfParts(l: seq<Credentials>, x: Credentials, r: seq<Credentials>)
    ensures multiset(l + ([x] + r)) == multiset(l + r) + multiset{x}
  {
  }

  lemma SameWithout(a: multiset<Credentials>, b: multiset<Credentials>, x: Credentials)
    requires a + multiset{x} == b + multiset{x}
    ensures a == b
  {
    assert (a + multiset{x}) - multiset{x} == a;
    assert (b + multiset{x}) - multiset{x} == b;
  }

  lemma WithoutFirst(a: seq<Credentials>, b: seq<Credentials>) returns (l: seq<Credentials>, r: seq<Credentials>)
    requires multiset(a) == multiset(b) && a != []
    ensures b == l + ([a[0]] + r) && multiset(a[1..]) == multiset(l + r)
  {
    var x, tail := a[0], a[1..];
    assert x in multiset(b);
    l, r := Around(b, x);
    assert a == [] + ([x] + tail) && [] + tail == tail;
    MultisetOfParts([], x, tail);
    MultisetOfParts(l, x, r);
    SameWithout(multiset(tail), multiset(l + r), x);
  }

  lemma {:induction false} TotalOfPermutation(a: seq<Credentials>, b: seq<Credentials>, size: Credentials -> nat)
    requires multiset(a) == multiset(b)
    ensures Total(a, size) == Total(b, size)
  {
    if a == [] {
      assert |multiset(b)| == 0;
    } else {
      var l, r := WithoutFirst(a, b);
      TotalOfPermutation(a[1..], l + r, size);
      TotalOfConcat(l, r, size);
      TotalOfConcat(l, [a[0]] + r, size);
      assert ([a[0]] + r)[1..] == r;
    }
  }

  lemma DistinctOnesAreAll(a: seq<Credentials>, b: seq<Credentials>)
    requires DistinctEmails(a) && |a| == |b| && forall i :: 0 <= i < |a| ==> a[i] in b
    ensures multiset(a) == multiset(b)
  {
    forall x | x in multiset(a) ensures multiset(a)[x] <= 1 {
      OccursOnce(a, x);
    }
    assert multiset(a) <= multiset(b) by {
      forall x ensures multiset(a)[x] <= multiset(b)[x] {
        if x in a { assert x in b; }
      }
    }
    var rest := multiset(b) - multiset(a);
    assert |rest| == 0;
    assert multiset(b) == multiset(a) + rest;
  }

  lemma {:induction false} OccursOnce(a: seq<Credentials>, x: Credentials)
    requires DistinctEmails(a)
    ensures multiset(a)[x] <= 1
  {
    if a != [] {
      var init := a[1..];
      assert a == [a[0]] + init;
      assert forall i :: 0 <= i < |init| ==> init[i] == a[i + 1];
      OccursOnce(init, x);
      if a[0] == x {
        assert x !in init;
      }
    }
  }

  // --------------------------------------------------------------------------------- tight lines

  function LineSize(c: Credentials): nat {
    |Format(c)|
  }

  function EmailSize(c: Credentials): nat {
    |c.email|
  }

  /** A line that is not longer than what was read from it, written again. */
  predicate Tight(raw: string, validate: Validator) {
    if Strip(raw) == "" then raw == "" else Parse(raw, validate).Ok? && |raw| == |Format(Parse(raw, validate).value)|
  }

  lemma ParsedIsNoLonger(raw: string, validate: Validator, c: Credentials)
    requires NormalizesLine(raw, validate) && Parse(raw, validate) == Ok(c)
    ensures |Format(c)| <= |raw|
    ensures |Format(c)| == |raw| ==>
              var parts := Split(raw);
              |parts| == 4 && |parts[0]| == |c.email| && validate(parts[0]) == Some(c.email) && validate(c.email) == Some(c.email)
  {
    hide Segments, Split, Strip, StripBoms, Format, Join, Fields;
    var parts := Split(StripBoms(Strip(raw)));
    SegmentsAre(raw, parts);
    ParsedFrom(raw, validate, c);
    FormatIsJoin(c);
    LengthOfJoin(parts);
    FieldsOf(c);
  }

  lemma FieldsOf(c: Credentials)
    ensures Fields(c) == [c.email, c.password, c.clientId, c.refreshToken]
  {
  }

  /** The lines are at least as long as what was read from them, written again; if not longer, every line is tight. */
  lemma {:induction false} ParsedAreNoLonger(lines: seq<string>, n: nat, validate: Validator)
    requires n <= |lines| && forall k :: 0 <= k < n ==> NotRefused(lines[k], validate) && NormalizesLine(lines[k], validate)
    ensures Total(Parsed(lines, n, validate), LineSize) <= Length(lines, n)
    ensures Total(Parsed(lines, n, validate), LineSize) == Length(lines, n) ==> forall k :: 0 <= k < n ==> Tight(lines[k], validate)
  {
    hide Strip, Parse, Format, NormalizesLine;
    if n > 0 {
      var raw := lines[n - 1];
      ParsedAreNoLonger(lines, n - 1, validate);
      if Strip(raw) != "" {
        var c := Parse(raw, validate).value;
        ParsedIsNoLonger(raw, validate, c);
        TotalOfConcat(Parsed(lines, n - 1, validate), [c], LineSize);
        assert Total([c], LineSize) == LineSize(c) + Total([], LineSize);
      }
    }
  }

  /** A tight line that was written from `r` begins with the address of `r`, or a part of it. */
  lemma EmailOfTightLine(r: Credentials, validate: Validator, c: Credentials)
    requires NormalizesLine(Format(r), validate) && Parse(Format(r), validate) == Ok(c) && |Format(c)| == |Format(r)|
    ensures |c.email| <= |r.email| && validate(c.email) == Some(c.email)
    ensures |c.email| == |r.email| ==> validate(r.email) == Some(c.email)
  {
    ParsedIsNoLonger(Format(r), validate, c);
    FirstField(r.email, r.password + SEP + (r.clientId + SEP + r.refreshToken));
    hide NormalizesLine, Parse;
    assert Format(r) == r.email + SEP + (r.password + SEP + (r.clientId + SEP + r.refreshToken));
    assert Split(Format(r))[0] == Format(r)[..FindSep(Format(r), 0)];
    assert Format(r)[..|r.email|] == r.email;
  }

  // ----------------------------------------------------------------------------------- the whole file

  /** Importing the file into an empty table restores just these records. */
  predicate FileRestores(records: seq<Credentials>, validate: Validator, options: Options) {
    var lines := SplitLines(FileOf(Lines(records)));
    Restored(Finish(After(map[], lines, |lines|, validate, options)), records, |records|)
  }

  /** What was read is what was written, in some order. */
  lemma RestoredIsPermutation(b: Batch, records: seq<Credentials>, cs: seq<Credentials>)
    requires Restored(b, records, |records|) && Mirrors(b, cs)
    ensures multiset(cs) == multiset(records)
  {
    forall i | 0 <= i < |cs| ensures cs[i] in records {
      assert cs[i].email in Emails(records, |records|);
      var j :| 0 <= j < |records| && records[j].email == cs[i].email;
      assert Holds(b.rows, records[j]);
      assert records[j] == cs[i];
    }
    DistinctOnesAreAll(cs, records);
  }

  lemma {:induction false} LinesOfTail(records: seq<Credentials>)
    requires records != []
    ensures Lines(records)[0] == Format(records[0]) && Lines(records)[1..] == Lines(records[1..])
  {
    hide Format;
    assert forall i :: 0 <= i < |records| - 1 ==> Lines(records)[1..][i] == Lines(records[1..])[i];
  }

  lemma {:induction false} NonBreaksOfLines(records: seq<Credentials>)
    ensures NonBreaksIn(Lines(records)) <= Total(records, LineSize)
    ensures NonBreaksIn(Lines(records)) == Total(records, LineSize) ==> forall i :: 0 <= i < |records| ==> NoBreak(Format(records[i]))
  {
    hide Format, NoBreak, NonBreaks, Lines;
    if records != [] {
      LinesOfTail(records);
      NonBreaksOfLines(records[1..]);
      assert forall i :: 1 <= i < |records| ==> records[i] == records[1..][i - 1];
    }
  }

  lemma NonBreaksOfFile(records: seq<Credentials>)
    requires records != []
    ensures NonBreaks(FileOf(Lines(records))) == NonBreaksIn(Lines(records))
    ensures Lines(records) != [""]
  {
    EndsOfFormat(records[0]);
    assert Lines(records)[0] != "";
    assert JoinLines(Lines(records)) != "";
    assert IsBreak("\n"[0]);
    BreakHasNoNonBreaks("\n");
    NonBreaksOfConcat(JoinLines(Lines(records)), "\n");
    NonBreaksOfJoin(Lines(records));
  }

  lemma FinishedWithoutErrors(b: Batch, records: seq<Credentials>, validate: Validator, options: Options)
    requires FileRestores(records, validate, options)
    requires b == After(map[], SplitLines(FileOf(Lines(records))), |SplitLines(FileOf(Lines(records)))|, validate, options)
    ensures b.errors == [] && Restored(b, records, |records|)
  {
    hide After, SplitLines, FileOf, Lines, Holds, Emails;
  }

  /** In a file that restores its records nothing is lost: no break inside a line, and no character beside the fields. */
  lemma NothingIsLost(records: seq<Credentials>, validate: Validator, options: Options)
    requires records != [] && NormalizesAll(SplitLines(FileOf(Lines(records))), validate) && FileRestores(records, validate, options)
    ensures var lines := SplitLines(FileOf(Lines(records)));
            var cs := Parsed(lines, |lines|, validate);
            && Mirrors(After(map[], lines, |lines|, validate, options), cs)
            && Restored(After(map[], lines, |lines|, validate, options), records, |records|)
            && multiset(cs) == multiset(records)
            && Total(cs, LineSize) == Length(lines, |lines|)
            && NonBreaksIn(Lines(records)) == Total(records, LineSize)
            && forall k :: 0 <= k < |lines| ==> Tight(lines[k], validate)
  {
    hide *;
    var file := FileOf(Lines(records));
    var lines := SplitLines(file);
    var b := After(map[], lines, |lines|, validate, options);
    FinishedWithoutErrors(b, records, validate, options);
    NormalizesEach(lines, validate);
    TableMirrorsLines(lines, |lines|, validate, options);
    var cs := Parsed(lines, |lines|, validate);
    RestoredIsPermutation(b, records, cs);
    TotalOfPermutation(cs, records, LineSize);
    ParsedAreNoLonger(lines, |lines|, validate);
    LengthOfLines(file);
    NonBreaksOfFile(records);
    NonBreaksOfLines(records);
  }

  /** A file that restores its records has just their lines, without breaks, and only tight ones. */
  lemma FileIsTight(records: seq<Credentials>, validate: Validator, options: Options)
    requires records != [] && NormalizesAll(SplitLines(FileOf(Lines(records))), validate) && FileRestores(records, validate, options)
    ensures var lines := Lines(records);
            && SplitLines(FileOf(lines)) == lines
            && (forall i :: 0 <= i < |records| ==> NoBreak(Format(records[i])) && Tight(lines[i], validate))
            && Mirrors(After(map[], lines, |lines|, validate, options), Parsed(lines, |lines|, validate))
            && Restored(After(map[], lines, |lines|, validate, options), records, |records|)
            && multiset(Parsed(lines, |lines|, validate)) == multiset(records)
  {
    hide *;
    NothingIsLost(records, validate, options);
    NonBreaksOfFile(records);
    NonBreaksOfLines(records);
    assert forall i :: 0 <= i < |records| ==> Lines(records)[i] == Format(records[i]);
    LinesOfFileIff(Lines(records));
  }

  lemma {:induction false} EveryLineParsed(lines: seq<string>, n: nat, validate: Validator)
    requires n <= |lines| && forall k :: 0 <= k < n ==> Strip(lines[k]) != "" && Parse(lines[k], validate).Ok?
    ensures var cs := Parsed(lines, n, validate);
            |cs| == n && forall k :: 0 <= k < n ==> cs[k] == Parse(lines[k], validate).value
  {
    hide Strip, Parse;
    if n > 0 {
      EveryLineParsed(lines, n - 1, validate);
    }
  }

  lemma {:induction false} EqualTotals(a: seq<Credentials>, b: seq<Credentials>, size: Credentials -> nat)
    requires |a| == |b| && forall i :: 0 <= i < |a| ==> size(a[i]) <= size(b[i])
    ensures Total(a, size) <= Total(b, size)
    ensures Total(a, size) == Total(b, size) ==> forall i :: 0 <= i < |a| ==> size(a[i]) == size(b[i])
  {
    if a != [] {
      assert forall i :: 1 <= i < |a| ==> a[i] == a[1..][i - 1] && b[i] == b[1..][i - 1];
      EqualTotals(a[1..], b[1..], size);
    }
  }

  lemma TightLineIsParsed(r: Credentials, validate: Validator)
    requires Tight(Format(r), validate)
    ensures Strip(Format(r)) != "" && Parse(Format(r), validate).Ok?
    ensures |Format(Parse(Format(r), validate).value)| == |Format(r)|
  {
    EndsOfFormat(r);
    hide Strip, Parse, Format;
  }

  lemma ReadInOrder(records: seq<Credentials>, validate: Validator)
    requires NormalizesAll(Lines(records), validate) && forall k :: 0 <= k < |records| ==> Tight(Lines(records)[k], validate)
    ensures var cs := Parsed(Lines(records), |records|, validate);
            && |cs| == |records|
            && (forall k :: 0 <= k < |cs| ==> Parse(Format(records[k]), validate) == Ok(cs[k]))
            && (forall k :: 0 <= k < |cs| ==> |cs[k].email| <= |records[k].email| && validate(cs[k].email) == Some(cs[k].email))
            && (forall k :: 0 <= k < |cs| && |cs[k].email| == |records[k].email| ==> validate(records[k].email) == Some(cs[k].email))
  {
    var lines := Lines(records);
    hide *;
    NormalizesEach(lines, validate);
    forall k | 0 <= k < |records|
      ensures Strip(lines[k]) != "" && Parse(lines[k], validate).Ok?
      ensures var c := Parse(lines[k], validate).value;
              && |c.email| <= |records[k].email| && validate(c.email) == Some(c.email)
              && (|c.email| == |records[k].email| ==> validate(records[k].email) == Some(c.email))
    {
      TightLineIsParsed(records[k], validate);
      EmailOfTightLine(records[k], validate, Parse(lines[k], validate).value);
    }
    EveryLineParsed(lines, |records|, validate);
  }

  lemma SizesAreEqual(cs: seq<Credentials>, records: seq<Credentials>)
    requires |cs| == |records| && multiset(cs) == multiset(records)
    requires forall k :: 0 <= k < |cs| ==> |cs[k].email| <= |records[k].email|
    ensures forall k :: 0 <= k < |cs| ==> |cs[k].email| == |records[k].email|
  {
    assert forall c :: EmailSize(c) == |c.email|;
    hide *;
    TotalOfPermutation(cs, records, EmailSize);
    EqualTotals(cs, records, EmailSize);
  }

  /** In a file that restores its records every line is read as the record it was written from. */
  lemma EveryRecordIsReadBack(records: seq<Credentials>, validate: Validator, options: Options)
    requires records != [] && NormalizesAll(SplitLines(FileOf(Lines(records))), validate) && FileRestores(records, validate, options)
    ensures forall k :: 0 <= k < |records| ==> NoBreak(Format(records[k])) && Parse(Format(records[k]), validate) == Ok(records[k])
    ensures DistinctEmails(records)
  {
    var cs := Parsed(Lines(records), |records|, validate);
    FileIsTight(records, validate, options);
    assert DistinctEmails(cs);
    hide *;
    ReadInOrder(records, validate);
    SizesAreEqual(cs, records);
    SamePlaces(cs, records, validate);
  }

  lemma SamePlaces(cs: seq<Credentials>, records: seq<Credentials>, validate: Validator)
    requires |cs| == |records| && multiset(cs) == multiset(records) && DistinctEmails(cs)
    requires forall k :: 0 <= k < |cs| ==> validate(records[k].email) == Some(cs[k].email) && validate(cs[k].email) == Some(cs[k].email)
    ensures cs == records
  {
    forall k | 0 <= k < |cs| ensures cs[k] == records[k] {
      assert records[k] in multiset(cs);
      var j :| 0 <= j < |cs| && cs[j] == records[k];
      assert validate(records[j].email) == Some(records[k].email);
      assert validate(records[k].email) == Some(records[k].email);
    }
  }

  /**
   * A file of exported credentials, imported into an empty table, restores exactly the records it was made of if
   * and only if each of them is portable and no address occurs twice.
   */
  lemma FileRestoresIff(records: seq<Credentials>, validate: Validator, options: Options)
    requires records != [] && NormalizesAll(SplitLines(FileOf(Lines(records))), validate)
    ensures FileRestores(records, validate, options) <==> Portable(records, validate)
  {
    if Portable(records, validate) {
      ImportRestoresExport(records, validate, options);
    }
    if FileRestores(records, validate, options) {
      EveryRecordIsReadBack(records, validate, options);
      FileIsTight(records, validate, options);
      forall k | 0 <= k < |records| ensures PortableOne(records[k], validate) {
        assert Lines(records)[k] == Format(records[k]) && NormalizesLine(Lines(records)[k], validate);
        ParseOfFormatIff(records[k], validate);
      }
    }
  }
}
