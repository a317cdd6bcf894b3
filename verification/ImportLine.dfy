/** Credential lines: how they are written by the export and read by the import. */
module ImportLine {
  import opened Wrappers
  import opened Text

  const SEP := "----"
  const BOM := '\U{FEFF}'

  datatype Credentials = Credentials(email: string, password: string, clientId: string, refreshToken: string)

  datatype LineError = WrongShape | MissingField | InvalidEmail | Repeated | ForeignProvider | Exists | Leased | NothingToImport

  /** The address library: the normal form of a valid address. */
  type Validator = string -> Option<string>

  function Format(c: Credentials): string {
    c.email + SEP + (c.password + SEP + (c.clientId + SEP + c.refreshToken))
  }

  /** `SEP` stands at position `i`. */
  predicate SepAt(s: string, i: nat) {
    i + 4 <= |s| && s[i] == '-' && s[i + 1] == '-' && s[i + 2] == '-' && s[i + 3] == '-'
  }

  /** Position of the leftmost separator from `i` on, or the length of the text. */
  function FindSep(s: string, i: nat): (f: nat)
    requires i <= |s|
    ensures i <= f <= |s| && (f < |s| ==> SepAt(s, f)) && forall k :: i <= k < f ==> !SepAt(s, k)
    decreases |s| - i
  {
    if i == |s| || SepAt(s, i) then i else FindSep(s, i + 1)
  }

  /** Leftmost, non-overlapping split. */
  function Split(s: string): (parts: seq<string>)
    ensures |parts| >= 1
    decreases |s|
  {
    var f := FindSep(s, 0);
    if f < |s| then [s[..f]] + Split(s[f + 4..]) else [s]
  }

  function Join(fields: seq<string>): string
    requires fields != []
  {
    if |fields| == 1 then fields[0] else fields[0] + SEP + Join(fields[1..])
  }

  function StripBoms(s: string): string {
    if s != "" && s[0] == BOM then StripBoms(s[1..]) else s
  }

  function StripAll(parts: seq<string>): (r: seq<string>)
    ensures |r| == |parts| && forall i :: 0 <= i < |r| ==> r[i] == Strip(parts[i])
  {
    seq(|parts|, i requires 0 <= i < |parts| => Strip(parts[i]))
  }

  function Segments(raw: string): seq<string> {
    StripAll(Split(StripBoms(Strip(raw))))
  }

  function Parse(raw: string, validate: Validator): Result<Credentials, LineError> {
    var s := Segments(raw);
    if |s| != 4 then Err(WrongShape)
    else if s[0] == "" || s[1] == "" || s[2] == "" || s[3] == "" then Err(MissingField)
    else
      var email := validate(s[0]);
      if email.None? then Err(InvalidEmail) else Ok(Credentials(email.value, s[1], s[2], s[3]))
  }

  // ------------------------------------------------------------------------------------ splitting

  predicate FreeOfSep(s: string) {
    forall i :: 0 <= i < |s| ==> !SepAt(s, i)
  }

  predicate EndsInDash(s: string) {
    s != "" && s[|s| - 1] == '-'
  }

  predicate Separable(fields: seq<string>) {
    && (forall i :: 0 <= i < |fields| ==> FreeOfSep(fields[i]))
    && (forall i :: 0 <= i < |fields| - 1 ==> !EndsInDash(fields[i]))
  }

  lemma LeftmostSep(s: string, f: nat)
    requires SepAt(s, f) && forall k :: 0 <= k < f ==> !SepAt(s, k)
    ensures FindSep(s, 0) == f
  {
  }

  lemma FirstField(x: string, rest: string)
    ensures FreeOfSep(x) && !EndsInDash(x) <==> FindSep(x + SEP + rest, 0) == |x|
    ensures FindSep(x + SEP + rest, 0) <= |x|
  {
    var s := x + SEP + rest;
    assert SepAt(s, |x|);
    if FreeOfSep(x) && !EndsInDash(x) {
      forall k | 0 <= k < |x| ensures !SepAt(s, k) {
        assert !SepAt(x, k) && s[|x| - 1] != '-';
      }
      LeftmostSep(s, |x|);
    } else if !FreeOfSep(x) {
      var k :| 0 <= k < |x| && SepAt(x, k);
      assert SepAt(s, k);
    } else {
      assert SepAt(s, |x| - 1);
    }
  }

  lemma SplitAtFirst(x: string, rest: string)
    ensures var s := x + SEP + rest;
            && (FindSep(s, 0) == |x| ==> Split(s) == [x] + Split(rest))
            && (FindSep(s, 0) < |x| ==> Split(s)[0] != x)
  {
    var s := x + SEP + rest;
    assert s[..|x|] == x && s[|x| + 4..] == rest;
  }

  /** Splitting undoes joining exactly for fields that neither contain the separator nor run into it. */
  lemma {:induction false} SplitOfJoin(fields: seq<string>)
    requires fields != []
    ensures Split(Join(fields)) == fields <==> Separable(fields)
  {
    var x := fields[0];
    hide FindSep, SepAt;
    if |fields| == 1 {
      SplitOfOne(x);
      assert fields == [x];
    } else {
      var tail := fields[1..];
      var rest := Join(tail);
      FirstField(x, rest);
      SplitAtFirst(x, rest);
      SplitOfJoin(tail);
      hide Split, FreeOfSep, EndsInDash, Join;
      SeparableTail(fields);
      assert fields == [x] + tail;
      assert Join(fields) == x + SEP + rest by { JoinOfMany(fields); }
    }
  }

  lemma JoinOfMany(fields: seq<string>)
    requires |fields| > 1
    ensures Join(fields) == fields[0] + SEP + Join(fields[1..])
  {
  }

  lemma SplitOfOne(x: string)
    ensures Split(x) == [x] <==> FreeOfSep(x)
  {
  }

  lemma SeparableTail(fields: seq<string>)
    requires |fields| > 1
    ensures Separable(fields) <==> FreeOfSep(fields[0]) && !EndsInDash(fields[0]) && Separable(fields[1..])
  {
    hide FreeOfSep, EndsInDash;
    var tail := fields[1..];
    assert forall i :: 0 < i < |fields| ==> fields[i] == tail[i - 1];
    assert forall i :: 0 <= i < |tail| ==> tail[i] == fields[i + 1];
  }

  lemma {:induction false} JoinOfSplit(s: string)
    ensures Join(Split(s)) == s
    decreases |s|
  {
    hide FindSep;
    var f := FindSep(s, 0);
    if f < |s| {
      var rest := s[f + 4..];
      JoinOfSplit(rest);
      assert Split(s)[1..] == Split(rest);
      assert s == s[..f] + SEP + rest;
    }
  }

  // ---------------------------------------------------------------------------------- one whole line

  function Fields(c: Credentials): seq<string> {
    [c.email, c.password, c.clientId, c.refreshToken]
  }

  /** What the fields of a line have to be like to be read back as they were written. */
  predicate Readable(c: Credentials) {
    && (forall i :: 0 <= i < 4 ==> Trimmed(Fields(c)[i]))
    && Separable(Fields(c))
    && (c.email == "" || c.email[0] != BOM)
  }

  lemma JoinOfFour(fs: seq<string>)
    requires |fs| == 4
    ensures Join(fs) == fs[0] + SEP + (fs[1] + SEP + (fs[2] + SEP + fs[3]))
  {
    JoinOfMany(fs);
    JoinOfMany(fs[1..]);
    JoinOfMany(fs[1..][1..]);
  }

  lemma FormatIsJoin(c: Credentials)
    ensures Format(c) == Join(Fields(c))
    ensures |Fields(c)| == 4
    ensures |Format(c)| == |Fields(c)[0]| + |Fields(c)[1]| + |Fields(c)[2]| + |Fields(c)[3]| + 12
  {
    JoinOfFour(Fields(c));
    hide Join;
  }

  lemma LengthOfJoin(fs: seq<string>)
    requires |fs| == 4
    ensures |Join(fs)| == |fs[0]| + |fs[1]| + |fs[2]| + |fs[3]| + 12
  {
    JoinOfFour(fs);
    hide Join;
  }

  /** All byte order marks at the front go, and nothing else. */
  lemma {:induction false} BomsAreStripped(s: string)
    ensures var r := StripBoms(s);
            && |r| <= |s| && r == s[|s| - |r|..] && (r == "" || r[0] != '\U{FEFF}')
            && forall i :: 0 <= i < |s| - |r| ==> s[i] == '\U{FEFF}'
  {
    if s != "" && s[0] == BOM {
      BomsAreStripped(s[1..]);
      assert forall i :: 1 <= i < |s| ==> s[i] == s[1..][i - 1];
    }
  }

  lemma StripBomsShortens(s: string)
    ensures |StripBoms(s)| <= |s|
    ensures |StripBoms(s)| == |s| ==> StripBoms(s) == s
    ensures StripBoms(s) == s <==> s == "" || s[0] != BOM
  {
  }

  lemma EndsOfFormat(c: Credentials)
    ensures var line := Format(c);
            && line != ""
            && line[0] == (if c.email == "" then '-' else c.email[0])
            && line[|line| - 1] == (if c.refreshToken == "" then '-' else c.refreshToken[|c.refreshToken| - 1])
  {
  }

  lemma ReadableEnds(c: Credentials)
    requires Readable(c)
    ensures Strip(Format(c)) == Format(c) && StripBoms(Format(c)) == Format(c)
    ensures StripAll(Fields(c)) == Fields(c)
  {
    var line, fields := Format(c), Fields(c);
    EndsOfFormat(c);
    StripOfTrimmed(line);
    StripBomsShortens(line);
    assert fields[0] == c.email && fields[3] == c.refreshToken;
    hide Format, Strip, StripBoms, Separable;
    assert Trimmed(fields[0]) && Trimmed(fields[3]);
    assert Trimmed(line);
    forall i | 0 <= i < 4 ensures Strip(fields[i]) == fields[i] {
      StripOfTrimmed(fields[i]);
    }
  }

  /** A line of readable fields is split into just these fields. */
  lemma ReadableIsReadBack(c: Credentials)
    requires Readable(c)
    ensures Segments(Format(c)) == Fields(c)
  {
    ReadableEnds(c);
    FormatIsJoin(c);
    SplitOfJoin(Fields(c));
    hide Format, Join, Split, Strip, StripAll, StripBoms, Separable, Fields;
  }

  lemma StrippedPart(part: string)
    ensures |Strip(part)| <= |part| && Trimmed(Strip(part)) && (|Strip(part)| == |part| ==> Strip(part) == part)
  {
    StripOfTrimmed(part);
    StripShortens(part);
  }

  lemma SegmentsAre(raw: string, parts: seq<string>)
    requires parts == Split(StripBoms(Strip(raw)))
    ensures var s := Segments(raw);
            && |s| == |parts|
            && (forall i :: 0 <= i < |s| ==> s[i] == Strip(parts[i]) && |s[i]| <= |parts[i]|)
            && (forall i :: 0 <= i < |s| ==> Trimmed(s[i]) && (|s[i]| == |parts[i]| ==> s[i] == parts[i]))
    ensures Join(parts) == StripBoms(Strip(raw)) && |Join(parts)| <= |raw|
    ensures |Join(parts)| == |raw| ==> Strip(raw) == raw && StripBoms(raw) == raw
  {
    hide Strip, Split, StripBoms, Trimmed, Join;
    forall i | 0 <= i < |parts| {
      StrippedPart(parts[i]);
    }
    JoinOfSplit(StripBoms(Strip(raw)));
    StrippedPart(raw);
    StripBomsShortens(Strip(raw));
  }

  /** Whatever a line is split into, if it is no shorter than what was written then it is what was written. */
  lemma ReadBackIsReadable(c: Credentials, s: seq<string>)
    requires s == Segments(Format(c)) && |s| == 4
    requires forall i :: 0 <= i < 4 ==> |s[i]| >= |Fields(c)[i]|
    ensures s == Split(Format(c)) && StripBoms(Format(c)) == Format(c) && forall i :: 0 <= i < 4 ==> Trimmed(s[i])
    ensures forall i :: 0 <= i < 4 ==> |s[i]| == |Fields(c)[i]|
  {
    hide *;
    FormatIsJoin(c);
    var parts := Split(StripBoms(Strip(Format(c))));
    SegmentsAre(Format(c), parts);
    LengthOfJoin(parts);
    assert s == parts;
  }

  /** A line is split into the fields it was written from exactly if these are readable. */
  lemma FormatIsReadBackIff(c: Credentials)
    ensures Segments(Format(c)) == Fields(c) <==> Readable(c)
  {
    if Readable(c) {
      ReadableIsReadBack(c);
    } else if Segments(Format(c)) == Fields(c) {
      ReadBackIsReadable(c, Fields(c));
      BecomesReadable(c);
    }
    hide *;
  }

  lemma BecomesReadable(c: Credentials)
    requires Split(Format(c)) == Fields(c) && StripBoms(Format(c)) == Format(c)
    requires forall i :: 0 <= i < 4 ==> Trimmed(Fields(c)[i])
    ensures Readable(c)
  {
    FormatIsJoin(c);
    SplitOfJoin(Fields(c));
    StripBomsShortens(Format(c));
    EndsOfFormat(c);
    hide Format, Join, Split, StripBoms, Separable, Trimmed;
  }

  /** The four segments in their order. */
  lemma FormatExample()
    ensures Format(Credentials("a@d", "pw", "client", "rt")) == "a@d----pw----client----rt"
  {
  }

  /** Every way in which a line can be refused. */
  lemma ParseRefusesIff(raw: string, validate: Validator)
    ensures var s, r := Segments(raw), Parse(raw, validate);
            && (r == Err(WrongShape) <==> |s| != 4)
            && (r == Err(MissingField) <==> |s| == 4 && exists i :: 0 <= i < 4 && s[i] == "")
            && (r == Err(InvalidEmail) <==> |s| == 4 && (forall i :: 0 <= i < 4 ==> s[i] != "") && validate(s[0]).None?)
            && (r.Ok? ==> |s| == 4 && r.value.password == s[1] && r.value.clientId == s[2] && r.value.refreshToken == s[3])
            && (r.Err? ==> r.error in {WrongShape, MissingField, InvalidEmail})
  {
    hide Segments;
    var s := Segments(raw);
    if |s| == 4 {
      assert (exists i :: 0 <= i < 4 && s[i] == "") <==> s[0] == "" || s[1] == "" || s[2] == "" || s[3] == "";
    }
  }

  predicate Complete(c: Credentials) {
    c.email != "" && c.password != "" && c.clientId != "" && c.refreshToken != ""
  }

  lemma ParseOfReadable(c: Credentials, validate: Validator)
    requires Readable(c) && Complete(c)
    ensures Parse(Format(c), validate) ==
            if validate(c.email).None? then Err(InvalidEmail) else Ok(c.(email := validate(c.email).value))
  {
    ReadableIsReadBack(c);
    hide Segments, Format, Readable;
  }

  /** The address that is read from this line has a normal form no longer than itself. */
  predicate NoLonger(raw: string, validate: Validator) {
    var s := Segments(raw);
    |s| == 4 && validate(s[0]).Some? ==> |validate(s[0]).value| <= |s[0]|
  }

  /**
   * Reading undoes writing exactly for complete and readable credentials whose address is in normal form.
   * The address library is assumed not to make the address on this line longer.
   */
  lemma ParseOfFormatIff(c: Credentials, validate: Validator)
    requires NoLonger(Format(c), validate)
    ensures Parse(Format(c), validate) == Ok(c) <==> Readable(c) && Complete(c) && validate(c.email) == Some(c.email)
  {
    if Readable(c) && Complete(c) {
      ParseOfReadable(c, validate);
    }
    hide *;
    if Parse(Format(c), validate) == Ok(c) {
      ParsedIsReadable(c, validate);
    }
  }

  lemma ReadIsNoLonger(raw: string, validate: Validator)
    requires NoLonger(raw, validate) && |Segments(raw)| == 4 && validate(Segments(raw)[0]).Some?
    ensures |validate(Segments(raw)[0]).value| <= |Segments(raw)[0]|
  {
  }

  lemma ParsedIsReadable(c: Credentials, validate: Validator)
    requires NoLonger(Format(c), validate)
    requires Parse(Format(c), validate) == Ok(c)
    ensures Readable(c) && Complete(c) && validate(c.email) == Some(c.email)
  {
    hide *;
    var s := Segments(Format(c));
    ParsedFrom(Format(c), validate, c);
    ReadIsNoLonger(Format(c), validate);
    EmailStartsFormat(c);
    ReadBackIsReadable(c, s);
    SplitStartsText(Format(c));
    assert s == Fields(c);
    FormatIsReadBackIff(c);
    CompleteIf(c);
  }

  lemma CompleteIf(c: Credentials)
    ensures c.email != "" && c.password != "" && c.clientId != "" && c.refreshToken != "" ==> Complete(c)
  {
  }

  lemma ParsedFrom(raw: string, validate: Validator, c: Credentials)
    requires Parse(raw, validate) == Ok(c)
    ensures var s := Segments(raw);
            && |s| == 4 && s[1..] == Fields(c)[1..] && validate(s[0]) == Some(c.email)
            && s[0] != "" && c.password != "" && c.clientId != "" && c.refreshToken != ""
            && forall i :: 1 <= i < 4 ==> s[i] == Fields(c)[i]
  {
    hide Segments;
  }

  lemma SplitStartsText(s: string)
    ensures Split(s)[0] <= s
  {
  }

  lemma EmailStartsFormat(c: Credentials)
    ensures c.email <= Format(c) && |Fields(c)| == 4 && Fields(c)[0] == c.email
  {
  }
}
