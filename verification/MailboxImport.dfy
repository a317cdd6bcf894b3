/** Exporting mailbox credentials to a text file and importing such a file into the mailbox table. */
module MailboxImport {
  import opened Wrappers
  import opened Text
  import opened ImportLine

  // ----------------------------------------------------------------------------------------- lines

  predicate IsBreak(c: char) {
    var n := c as int;
    0x0A <= n <= 0x0D || 0x1C <= n <= 0x1E || n == 0x85 || n == 0x2028 || n == 0x2029
  }

  /** Line ends one by one. */
  lemma BreaksAre(c: char)
    ensures IsBreak(c) <==> c in "\n\U{0B}\U{0C}\r\U{1C}\U{1D}\U{1E}\U{85}\U{2028}\U{2029}"
  {
  }

  predicate NoBreak(s: string) {
    forall i :: 0 <= i < |s| ==> !IsBreak(s[i])
  }

  function FindBreak(s: string): (f: nat)
    ensures f <= |s| && (f < |s| ==> IsBreak(s[f])) && forall i :: 0 <= i < f ==> !IsBreak(s[i])
  {
    if s == "" || IsBreak(s[0]) then 0
    else
      var f := 1 + FindBreak(s[1..]);
      assert forall i :: 1 <= i < f ==> s[i] == s[1..][i - 1];
      f
  }

  /** Lines without their ends; carriage return and line feed together end one line. */
  function SplitLines(s: string): seq<string>
    decreases |s|
  {
    if s == "" then []
    else
      var f := FindBreak(s);
      if f == |s| then [s]
      else
        var end := if s[f] == '\r' && f + 1 < |s| && s[f + 1] == '\n' then f + 2 else f + 1;
        [s[..f]] + SplitLines(s[end..])
  }

  function JoinLines(lines: seq<string>): string {
    if lines == [] then "" else if |lines| == 1 then lines[0] else lines[0] + "\n" + JoinLines(lines[1..])
  }

  function FileOf(lines: seq<string>): string {
    var content := JoinLines(lines);
    if content != "" then content + "\n" else content
  }

  lemma {:induction false} LinesHaveNoBreaks(s: string)
    ensures forall i :: 0 <= i < |SplitLines(s)| ==> NoBreak(SplitLines(s)[i])
    decreases |s|
  {
    if s != "" {
      var f := FindBreak(s);
      if f < |s| {
        var end := if s[f] == '\r' && f + 1 < |s| && s[f + 1] == '\n' then f + 2 else f + 1;
        LinesHaveNoBreaks(s[end..]);
      }
    }
    hide IsBreak;
  }

  lemma FirstLine(line: string, rest: string)
    requires NoBreak(line)
    ensures SplitLines(line + "\n" + rest) == [line] + SplitLines(rest)
  {
    var s := line + "\n" + rest;
    assert s[..|line|] == line && s[|line| + 1..] == rest && s[|line|] == '\n';
    assert IsBreak('\n');
    assert forall i :: 0 <= i < |line| ==> s[i] == line[i];
    hide IsBreak;
  }

  lemma {:induction false} SplitOfTerminated(lines: seq<string>)
    requires lines != [] && forall i :: 0 <= i < |lines| ==> NoBreak(lines[i])
    ensures SplitLines(JoinLines(lines) + "\n") == lines
  {
    hide NoBreak;
    var first, rest := lines[0], lines[1..];
    if rest == [] {
      FirstLine(first, "");
      assert first + "\n" + "" == JoinLines(lines) + "\n";
      assert lines == [first];
    } else {
      SplitOfTerminated(rest);
      assert JoinLines(lines) == first + "\n" + JoinLines(rest);
      hide SplitLines, JoinLines;
      FirstLine(first, JoinLines(rest) + "\n");
      assert JoinLines(lines) + "\n" == first + "\n" + (JoinLines(rest) + "\n");
    }
  }

  /** A file has exactly the lines it was made of, unless one contains a line break or the only one is empty. */
  lemma LinesOfFileIff(lines: seq<string>)
    ensures SplitLines(FileOf(lines)) == lines <==> lines != [""] && forall i :: 0 <= i < |lines| ==> NoBreak(lines[i])
  {
    hide NoBreak;
    LinesHaveNoBreaks(FileOf(lines));
    if lines != [] && forall i :: 0 <= i < |lines| ==> NoBreak(lines[i]) {
      SplitOfTerminated(lines);
      assert |lines| > 1 ==> |JoinLines(lines)| > 0;
    }
    hide SplitLines;
  }

  // -------------------------------------------------------------------------------------- the table

  datatype Row = Row(microsoft: bool, active: bool, password: string, clientId: string, refreshToken: string, version: nat, leased: bool)

  datatype OnConflict = Skip | Fail | ReplaceToken

  datatype Options = Options(onConflict: OnConflict, forceRelease: bool)

  datatype Verdict = Blank | Created | Updated | Skipped | Failed(error: LineError)

  /** What becomes of one line, given the table and the addresses met before it in the same file. */
  function Judge(rows: map<string, Row>, seen: set<string>, raw: string, validate: Validator, options: Options): Verdict {
    if Strip(raw) == "" then Blank
    else match Parse(raw, validate)
      case Err(e) => Failed(e)
      case Ok(c) =>
        if c.email in seen then Failed(Repeated)
        else if c.email !in rows then Created
        else if !rows[c.email].microsoft then Failed(ForeignProvider)
        else match options.onConflict
          case Skip => Skipped
          case Fail => Failed(Exists)
          case ReplaceToken => if rows[c.email].leased && !options.forceRelease then Failed(Leased) else Updated
  }

  function NewRow(c: Credentials): Row {
    Row(true, true, c.password, c.clientId, c.refreshToken, 1, false)
  }

  function ReplacedRow(row: Row, c: Credentials): Row {
    Row(row.microsoft, true, c.password, c.clientId, c.refreshToken, row.version + 1, false)
  }

  /** The table and the tallies after a number of lines. */
  datatype Batch = Batch(rows: map<string, Row>, seen: set<string>, created: nat, updated: nat, skipped: nat, errors: seq<(nat, LineError)>)

  function Start(rows: map<string, Row>): Batch {
    Batch(rows, {}, 0, 0, 0, [])
  }

  function Next(b: Batch, number: nat, raw: string, validate: Validator, options: Options): Batch {
    var verdict := Judge(b.rows, b.seen, raw, validate, options);
    var parsed := Parse(raw, validate);
    var noted := if verdict.Blank? || parsed.Err? then b else b.(seen := b.seen + {parsed.value.email});
    match verdict
    case Blank => b
    case Failed(e) => noted.(errors := b.errors + [(number, e)])
    case Skipped => noted.(skipped := b.skipped + 1)
    case Created => noted.(created := b.created + 1, rows := b.rows[parsed.value.email := NewRow(parsed.value)])
    case Updated =>
      noted.(updated := b.updated + 1,
             rows := b.rows[parsed.value.email := ReplacedRow(b.rows[parsed.value.email], parsed.value)])
  }

  function After(rows: map<string, Row>, lines: seq<string>, n: nat, validate: Validator, options: Options): Batch
    requires n <= |lines|
  {
    if n == 0 then Start(rows) else Next(After(rows, lines, n - 1, validate, options), n, lines[n - 1], validate, options)
  }

  function Finish(b: Batch): Batch {
    if b.seen == {} && b.errors == [] then b.(errors := [(0, NothingToImport)]) else b
  }

  function CountNonBlank(lines: seq<string>, n: nat): nat
    requires n <= |lines|
  {
    if n == 0 then 0 else CountNonBlank(lines, n - 1) + if Strip(lines[n - 1]) == "" then 0 else 1
  }

  class MailboxTable {
    var rows: map<string, Row>

    constructor (initial: map<string, Row>)
      ensures rows == initial
    {
      rows := initial;
    }

    method ImportMailboxes(content: string, validate: Validator, options: Options)
      returns (created: nat, updated: nat, skipped: nat, errors: seq<(nat, LineError)>)
      modifies this
      ensures var lines := SplitLines(content);
              var b := Finish(After(old(rows), lines, |lines|, validate, options));
              rows == b.rows && created == b.created && updated == b.updated && skipped == b.skipped && errors == b.errors
    {
      hide SplitLines, Parse, Strip;
      var seen: set<string> := {};
      var lines := SplitLines(content);
      created, updated, skipped, errors := 0, 0, 0, [];
      for n := 0 to |lines|
        invariant Batch(rows, seen, created, updated, skipped, errors) == After(old(rows), lines, n, validate, options)
      {
        if Strip(lines[n]) == "" {
          continue;
        }
        var parsed := Parse(lines[n], validate);
        if parsed.Err? {
          errors := errors + [(n + 1, parsed.error)];
          continue;
        }
        var email := parsed.value.email;
        if email in seen {
          assert seen + {email} == seen;
          errors := errors + [(n + 1, Repeated)];
          continue;
        }
        seen := seen + {email};
        if email in rows && !rows[email].microsoft {
          errors := errors + [(n + 1, ForeignProvider)];
          continue;
        }
        if email in rows && options.onConflict == Skip {
          skipped := skipped + 1;
          continue;
        }
        if email in rows && options.onConflict == Fail {
          errors := errors + [(n + 1, Exists)];
          continue;
        }
        if email in rows && options.onConflict == ReplaceToken && rows[email].leased && !options.forceRelease {
          errors := errors + [(n + 1, Leased)];
          continue;
        }
        if email !in rows {
          rows := rows[email := NewRow(parsed.value)];
          created := created + 1;
        } else {
          rows := rows[email := ReplacedRow(rows[email], parsed.value)];
          updated := updated + 1;
        }
      }
      if seen == {} && errors == [] {
        errors := [(0, NothingToImport)];
      }
    }
  }

  // -------------------------------------------------------------------------------------- properties

  /** Every line that is not blank is accounted for exactly once; a file without any is one error. */
  lemma {:induction false} EveryLineIsCounted(rows: map<string, Row>, lines: seq<string>, n: nat, validate: Validator, options: Options)
    requires n <= |lines|
    ensures var b := After(rows, lines, n, validate, options);
            && b.created + b.updated + b.skipped + |b.errors| == CountNonBlank(lines, n)
            && (b.seen == {} && b.errors == [] <==> CountNonBlank(lines, n) == 0)
  {
    hide Strip, Parse;
    if n > 0 {
      EveryLineIsCounted(rows, lines, n - 1, validate, options);
    }
  }

  /** The tallies of a whole import add up to its lines, or to one error if there was nothing to import. */
  lemma ImportIsCounted(rows: map<string, Row>, lines: seq<string>, validate: Validator, options: Options)
    ensures var b, n := Finish(After(rows, lines, |lines|, validate, options)), CountNonBlank(lines, |lines|);
            && b.created + b.updated + b.skipped + |b.errors| == (if n == 0 then 1 else n)
            && (n == 0 ==> b.errors == [(0, NothingToImport)] && b.rows == After(rows, lines, |lines|, validate, options).rows)
            && (n > 0 ==> b == After(rows, lines, |lines|, validate, options))
  {
    EveryLineIsCounted(rows, lines, |lines|, validate, options);
    hide After, CountNonBlank;
  }

  /**
   * No file removes a row, and a row changes only by one replacement from a line of that address, and only if
   * it may be replaced. Addresses the file has not named so far are untouched.
   */
  lemma {:induction false} ImportSparesRows(rows: map<string, Row>, lines: seq<string>, n: nat, validate: Validator, options: Options, email: string)
    requires n <= |lines|
    ensures var b := After(rows, lines, n, validate, options);
            && (email in rows ==> email in b.rows)
            && (email !in b.seen ==> (email in b.rows <==> email in rows))
            && (email !in b.seen && email in rows ==> b.rows[email] == rows[email])
            && (email in rows && b.rows[email] != rows[email] ==>
                  && MayReplace(rows[email], options)
                  && exists k :: 0 <= k < n && Replaces(lines[k], validate, email, rows[email], b.rows[email]))
  {
    hide Strip, Parse, ReplacedRow, NewRow;
    if n > 0 {
      ImportSparesRows(rows, lines, n - 1, validate, options, email);
      var before, b := After(rows, lines, n - 1, validate, options), After(rows, lines, n, validate, options);
      if email in rows && before.rows[email] != b.rows[email] {
        assert Replaces(lines[n - 1], validate, email, rows[email], b.rows[email]);
      }
    }
  }

  predicate Replaces(raw: string, validate: Validator, email: string, row: Row, now: Row) {
    var parsed := Parse(raw, validate);
    parsed.Ok? && parsed.value.email == email && now == ReplacedRow(row, parsed.value)
  }

  predicate MayReplace(row: Row, options: Options) {
    row.microsoft && options.onConflict == ReplaceToken && (row.leased ==> options.forceRelease)
  }

  /** The row stores these credentials. */
  predicate Stores(row: Row, c: Credentials) {
    row.password == c.password && row.clientId == c.clientId && row.refreshToken == c.refreshToken
  }

  /** A line with a new address creates an active Microsoft mailbox at version 1. */
  lemma NewAddressIsCreated(b: Batch, number: nat, raw: string, validate: Validator, options: Options, c: Credentials)
    requires Strip(raw) != "" && Parse(raw, validate) == Ok(c) && c.email !in b.seen && c.email !in b.rows
    ensures var v := Next(b, number, raw, validate, options);
            && v.created == b.created + 1 && v.updated == b.updated && v.skipped == b.skipped && v.errors == b.errors
            && v.seen == b.seen + {c.email}
            && c.email in v.rows && v.rows == b.rows[c.email := v.rows[c.email]] && Stores(v.rows[c.email], c)
            && v.rows[c.email].microsoft && v.rows[c.email].active && v.rows[c.email].version == 1 && !v.rows[c.email].leased
  {
    hide Strip, Parse;
  }

  /** What the policy does to an address that exists: skip it, report it, or replace its credentials under the next version. */
  lemma ExistingAddressFollowsPolicy(b: Batch, number: nat, raw: string, validate: Validator, options: Options, c: Credentials)
    requires Strip(raw) != "" && Parse(raw, validate) == Ok(c) && c.email !in b.seen && c.email in b.rows
    ensures Next(b, number, raw, validate, options).seen == b.seen + {c.email}
    ensures var v, row := Next(b, number, raw, validate, options), b.rows[c.email];
            if row.microsoft && options.onConflict == ReplaceToken && (!row.leased || options.forceRelease) then
              && v.updated == b.updated + 1 && v.created == b.created && v.skipped == b.skipped && v.errors == b.errors
              && c.email in v.rows && v.rows == b.rows[c.email := v.rows[c.email]] && Stores(v.rows[c.email], c)
              && v.rows[c.email].microsoft && v.rows[c.email].active && !v.rows[c.email].leased
              && v.rows[c.email].version == row.version + 1
            else
              && v.rows == b.rows && v.created == b.created && v.updated == b.updated
              && (row.microsoft && options.onConflict == Skip ==> v.skipped == b.skipped + 1 && v.errors == b.errors)
              && (!row.microsoft || options.onConflict != Skip ==>
                    v.skipped == b.skipped
                    && v.errors == b.errors + [(number, if !row.microsoft then ForeignProvider else if options.onConflict == Fail then Exists else Leased)])
  {
    hide Strip, Parse;
  }

  /** A line whose address occurred before, or that cannot be read, is reported with its number and changes nothing. */
  lemma BadLineIsReported(b: Batch, number: nat, raw: string, validate: Validator, options: Options)
    requires Strip(raw) != ""
    requires Parse(raw, validate).Err? || Parse(raw, validate).value.email in b.seen
    ensures Next(b, number, raw, validate, options)
         == b.(errors := b.errors + [(number, if Parse(raw, validate).Err? then Parse(raw, validate).error else Repeated)])
  {
    hide Strip, Parse;
    if Parse(raw, validate).Ok? {
      assert b.seen + {Parse(raw, validate).value.email} == b.seen;
    }
  }

  /** What a set of exported credentials has to satisfy to survive the trip through a file. */
  predicate Portable(records: seq<Credentials>, validate: Validator) {
    && (forall i :: 0 <= i < |records| ==> PortableOne(records[i], validate))
    && (forall i, j :: 0 <= i < j < |records| ==> records[i].email != records[j].email)
  }

  predicate PortableOne(c: Credentials, validate: Validator) {
    Readable(c) && Complete(c) && NoBreak(Format(c)) && validate(c.email) == Some(c.email)
  }

  function Lines(records: seq<Credentials>): (lines: seq<string>)
    ensures |lines| == |records| && forall i :: 0 <= i < |records| ==> lines[i] == Format(records[i])
  {
    seq(|records|, i requires 0 <= i < |records| => Format(records[i]))
  }

  predicate Holds(rows: map<string, Row>, c: Credentials) {
    c.email in rows && var row := rows[c.email];
    row.password == c.password && row.clientId == c.clientId && row.refreshToken == c.refreshToken
  }

  /** Exported credentials are written unless some are incomplete; then these are named. */
  method ExportMailboxes(records: seq<Credentials>) returns (r: Result<string, seq<string>>)
    ensures r.Ok? <==> forall i :: 0 <= i < |records| ==> Complete(records[i])
    ensures r.Ok? ==> r.value == FileOf(Lines(records))
    ensures r.Err? ==> forall e :: e in r.error <==> exists i :: 0 <= i < |records| && !Complete(records[i]) && records[i].email == e
  {
    hide Format, Complete;
    var lines: seq<string> := [];
    var incomplete: seq<string> := [];
    for i := 0 to |records|
      invariant incomplete == [] ==> lines == Lines(records[..i])
      invariant incomplete == [] <==> forall k :: 0 <= k < i ==> Complete(records[k])
      invariant forall e :: e in incomplete <==> exists k :: 0 <= k < i && !Complete(records[k]) && records[k].email == e
    {
      if !Complete(records[i]) {
        incomplete := incomplete + [records[i].email];
        continue;
      }
      lines := lines + [Format(records[i])];
    }
    if incomplete != [] {
      return Err(incomplete);
    }
    assert records[..|records|] == records;
    return Ok(FileOf(lines));
  }

  lemma PortableLine(c: Credentials, validate: Validator)
    requires PortableOne(c, validate)
    ensures Strip(Format(c)) != "" && Parse(Format(c), validate) == Ok(c)
  {
    ReadableEnds(c);
    EndsOfFormat(c);
    ParseOfReadable(c, validate);
    hide Readable, Format, Strip, Parse;
  }

  function Emails(records: seq<Credentials>, n: nat): set<string>
    requires n <= |records|
  {
    set i | 0 <= i < n :: records[i].email
  }

  /** Exactly the first `n` records are in the table, all of them newly created. */
  predicate Restored(b: Batch, records: seq<Credentials>, n: nat)
    requires n <= |records|
  {
    && b.created == n && b.updated == 0 && b.skipped == 0 && b.errors == []
    && b.rows.Keys == b.seen == Emails(records, n)
    && forall i :: 0 <= i < n ==> Holds(b.rows, records[i])
  }

  lemma NewLineCreates(b: Batch, number: nat, c: Credentials, validate: Validator, options: Options)
    requires PortableOne(c, validate) && c.email !in b.seen && c.email !in b.rows
    ensures Next(b, number, Format(c), validate, options)
         == b.(created := b.created + 1, seen := b.seen + {c.email}, rows := b.rows[c.email := NewRow(c)])
  {
    PortableLine(c, validate);
    hide PortableOne, Parse, Strip, Format, NewRow;
  }

  lemma RestoreNext(b: Batch, records: seq<Credentials>, n: nat, validate: Validator, options: Options)
    requires Portable(records, validate) && n < |records| && Restored(b, records, n)
    ensures Restored(Next(b, n + 1, Format(records[n]), validate, options), records, n + 1)
  {
    hide PortableOne, Next, Format;
    var c := records[n];
    assert c.email !in b.seen;
    NewLineCreates(b, n + 1, c, validate, options);
    assert Emails(records, n + 1) == Emails(records, n) + {c.email};
    forall i | 0 <= i < n ensures records[i].email != c.email {
    }
  }

  lemma AfterNext(rows: map<string, Row>, lines: seq<string>, n: nat, validate: Validator, options: Options)
    requires n < |lines|
    ensures After(rows, lines, n + 1, validate, options)
         == Next(After(rows, lines, n, validate, options), n + 1, lines[n], validate, options)
  {
    hide Next;
  }

  lemma RestoredNone(records: seq<Credentials>, validate: Validator, options: Options)
    ensures Restored(After(map[], Lines(records), 0, validate, options), records, 0)
  {
  }

  lemma {:induction false} ImportRestoresLines(records: seq<Credentials>, n: nat, validate: Validator, options: Options)
    requires Portable(records, validate) && n <= |records|
    ensures Restored(After(map[], Lines(records), n, validate, options), records, n)
  {
    hide *;
    if n == 0 {
      RestoredNone(records, validate, options);
    } else {
      ImportRestoresLines(records, n - 1, validate, options);
      RestoreNext(After(map[], Lines(records), n - 1, validate, options), records, n - 1, validate, options);
      AfterNext(map[], Lines(records), n - 1, validate, options);
    }
  }

  /**
   * A file of portable credentials, imported into an empty table, restores every record, creates nothing else,
   * and reports no error.
   */
  lemma ImportRestoresExport(records: seq<Credentials>, validate: Validator, options: Options)
    requires Portable(records, validate) && records != []
    ensures SplitLines(FileOf(Lines(records))) == Lines(records)
    ensures Restored(Finish(After(map[], SplitLines(FileOf(Lines(records))), |records|, validate, options)), records, |records|)
  {
    forall i | 0 <= i < |records| ensures NoBreak(Lines(records)[i]) {
      assert PortableOne(records[i], validate);
    }
    EndsOfFormat(records[0]);
    assert Lines(records) != [""] by {
      assert Lines(records)[0] != "";
    }
    hide *;
    LinesOfFileIff(Lines(records));
    ImportRestoresLines(records, |records|, validate, options);
    FinishesRestored(After(map[], Lines(records), |records|, validate, options), records);
  }

  lemma FinishesRestored(b: Batch, records: seq<Credentials>)
    requires records != [] && Restored(b, records, |records|)
    ensures Finish(b) == b
  {
    hide Holds;
    assert records[0].email in b.seen;
  }
}
