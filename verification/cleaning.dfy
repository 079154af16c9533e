/** The CSV cleaning page (question-1-data-cleaning/script.js): the naive parser,
    the empty-row filter, the e-mail and phone stages, "clean all", and the
    counters they report.

    The page keeps `rawData` (the parsed rows), `cleanedData` (a shallow copy of
    it, later filtered) and `stats`. Because the copy is shallow, the two lists
    hold the SAME row objects, and the field repairs write into those objects, so
    they also show up in `rawData`. The model makes the sharing explicit: the row
    objects live in one array `rows` (which is `rawData`), and `cleanedData` is the
    sequence `cleaned` of positions in that array. */
module DataCleaning {
  import opened Text
  import opened CleaningRules

  // ------------------------------------------------------------ parsing

  /** `parts.map(p => p.trim())` */
  function TrimAll(parts: seq<string>): seq<string> {
    seq(|parts|, i requires 0 <= i < |parts| => Trim(parts[i]))
  }

  /** `values[index] || ''`: the value at `index`, or "" past the end. */
  function FieldAt(values: seq<string>, index: nat): string {
    if index < |values| then values[index] else ""
  }

  /** The record built for one line: each header in turn is assigned the value
      at its position, so a repeated header keeps its last position's value. */
  function RecordFor(headers: seq<string>, values: seq<string>): Record {
    if headers == [] then map[]
    else
      var n := |headers| - 1;
      RecordFor(headers[..n], values)[headers[n] := FieldAt(values, n)]
  }

  /** The trimmed column names of the first line. */
  function HeaderRow(firstLine: string): seq<string> {
    TrimAll(Split(firstLine, ','))
  }

  /** The records of the lines after the header; whitespace-only lines are skipped. */
  function RecordsOf(headers: seq<string>, lines: seq<string>): seq<Record> {
    if lines == [] then []
    else
      var prev := RecordsOf(headers, lines[..|lines| - 1]);
      var line := lines[|lines| - 1];
      if Trim(line) == [] then prev else prev + [RecordFor(headers, TrimAll(Split(line, ',')))]
  }

  /** What `parseCSV` leaves in `rawData`. */
  function ParseRecords(text: string): seq<Record> {
    var lines := Split(text, '\n');
    RecordsOf(HeaderRow(lines[0]), lines[1..])
  }

  /** Every record has exactly the header names as keys; values beyond the
      header are dropped. */
  lemma {:induction false} RecordForKeys(headers: seq<string>, values: seq<string>)
    ensures forall h :: h in RecordFor(headers, values) <==> h in headers
  {
    if headers != [] {
      var n := |headers| - 1;
      RecordForKeys(headers[..n], values);
      assert headers == headers[..n] + [headers[n]];
    }
  }

  /** The field of a header that is not repeated later is the value at its
      position, or "" when the line is too short; values beyond the header are
      dropped. */
  lemma {:induction false} RecordForValues(headers: seq<string>, values: seq<string>, i: nat)
    requires i < |headers| && headers[i] !in headers[i + 1..]
    ensures headers[i] in RecordFor(headers, values)
    ensures RecordFor(headers, values)[headers[i]] == FieldAt(values, i)
  {
    var n := |headers| - 1;
    if i < n {
      var front := headers[..n];
      assert headers[n] in headers[i + 1..] by {
        assert headers[i + 1..][n - i - 1] == headers[n];
      }
      assert front[i + 1..] == headers[i + 1..n];
      assert headers[i] !in front[i + 1..];
      RecordForValues(front, values, i);
    }
  }

  lemma {:induction false} RecordsOfShape(headers: seq<string>, lines: seq<string>)
    ensures |RecordsOf(headers, lines)| <= |lines|
    ensures forall r, h :: r in RecordsOf(headers, lines) ==> (h in r <==> h in headers)
  {
    if lines != [] {
      RecordsOfShape(headers, lines[..|lines| - 1]);
      RecordForKeys(headers, TrimAll(Split(lines[|lines| - 1], ',')));
    }
  }

  /** The parser gives one record per non-blank line after the first, so at most
      one per line break, each keyed by exactly the header names; in particular
      empty input gives no records. */
  lemma ParseShape(text: string)
    ensures |ParseRecords(text)| <= CountChar(text, '\n')
    ensures forall r, h :: r in ParseRecords(text) ==>
      (h in r <==> h in HeaderRow(Split(text, '\n')[0]))
  {
    var lines := Split(text, '\n');
    SplitCount(text, '\n');
    RecordsOfShape(HeaderRow(lines[0]), lines[1..]);
  }

  /** A line made of commas and whitespace only is not skipped: it becomes a
      record whose every field is "". */
  lemma CommaLineIsAllEmpty(headers: seq<string>, line: string)
    requires forall i :: 0 <= i < |line| ==> line[i] == ',' || IsSpace(line[i])
    ensures forall k :: k in RecordFor(headers, TrimAll(Split(line, ','))) ==>
      RecordFor(headers, TrimAll(Split(line, ',')))[k] == ""
  {
    var parts := Split(line, ',');
    var values := TrimAll(parts);
    forall j | 0 <= j < |values| ensures values[j] == "" {
      SplitPieceChars(line, ',', j);
      forall k | 0 <= k < |parts[j]| ensures IsSpace(parts[j][k]) {
        var c := parts[j][k];
        assert c in line;
        var m :| 0 <= m < |line| && line[m] == c;
        assert c != ',';
      }
      TrimEmptyIffBlank(parts[j]);
    }
    AllEmptyRecord(headers, values);
  }

  lemma {:induction false} AllEmptyRecord(headers: seq<string>, values: seq<string>)
    requires forall j :: 0 <= j < |values| ==> values[j] == ""
    ensures forall k :: k in RecordFor(headers, values) ==> RecordFor(headers, values)[k] == ""
  {
    if headers != [] {
      AllEmptyRecord(headers[..|headers| - 1], values);
    }
  }

  /** Every character of a piece of `Split(s, sep)` occurs in `s`. */
  lemma {:induction false} SplitPieceChars(s: string, sep: char, j: nat)
    requires j < |Split(s, sep)|
    ensures forall c :: c in Split(s, sep)[j] ==> c in s
  {
    if s != [] {
      var rest := Split(s[1..], sep);
      if s[0] == sep {
        if j > 0 { SplitPieceChars(s[1..], sep, j - 1); }
      } else if j == 0 {
        SplitPieceChars(s[1..], sep, 0);
      } else {
        SplitPieceChars(s[1..], sep, j);
      }
    }
  }

  // ------------------------------------------------------------ datasets as positions

  /** `idx` lists distinct positions in increasing order, all below `n`. */
  predicate IsPositions(idx: seq<nat>, n: nat) {
    (forall i :: 0 <= i < |idx| ==> idx[i] < n)
    && (forall i, j :: 0 <= i < j < |idx| ==> idx[i] < idx[j])
  }

  /** `[...rawData]`: every position, in order. */
  function AllPositions(n: nat): (idx: seq<nat>)
    ensures IsPositions(idx, n) && |idx| == n
    ensures forall i :: 0 <= i < n ==> idx[i] == i
  {
    seq(n, i => i)
  }

  /** The rows a list of positions refers to. */
  function Gather(store: seq<Record>, idx: seq<nat>): seq<Record>
    requires IsPositions(idx, |store|)
  {
    seq(|idx|, i requires 0 <= i < |idx| => store[idx[i]])
  }

  /** The row-filter test: some value is non-blank. */
  predicate HasValue(r: Record) {
    exists k :: k in r && Trim(r[k]) != []
  }

  /** `cleanedData.filter(row => Object.values(row).some(v => v && v.trim() !== ''))`
      on positions: keeps, in order, exactly the positions whose row has a value. */
  function KeepNonEmpty(store: seq<Record>, idx: seq<nat>): (r: seq<nat>)
    requires IsPositions(idx, |store|)
    ensures IsPositions(r, |store|) && |r| <= |idx|
    ensures forall i :: 0 <= i < |r| ==> r[i] in idx
  {
    if idx == [] then []
    else
      var front := idx[..|idx| - 1];
      var last := idx[|idx| - 1];
      var prev := KeepNonEmpty(store, front);
      if HasValue(store[last]) then
        AppendPosition(prev, last, front, |store|);
        prev + [last]
      else prev
  }

  lemma AppendPosition(prev: seq<nat>, last: nat, front: seq<nat>, n: nat)
    requires IsPositions(prev, n) && last < n
    requires forall i :: 0 <= i < |prev| ==> prev[i] in front
    requires forall x :: x in front ==> x < last
    ensures IsPositions(prev + [last], n)
  {
  }

  /** The filter keeps exactly the positions whose row has a value. */
  lemma {:induction false} KeepNonEmptyMembers(store: seq<Record>, idx: seq<nat>)
    requires IsPositions(idx, |store|)
    ensures forall x :: x in KeepNonEmpty(store, idx) <==> x in idx && HasValue(store[x])
  {
    if idx != [] {
      var front := idx[..|idx| - 1];
      KeepNonEmptyMembers(store, front);
      assert idx == front + [idx[|idx| - 1]];
    }
  }

  /** The rows kept by one filter pass, described on the data itself. */
  function NonEmptyRows(data: seq<Record>): seq<Record> {
    if data == [] then []
    else
      var prev := NonEmptyRows(data[..|data| - 1]);
      var last := data[|data| - 1];
      if HasValue(last) then prev + [last] else prev
  }

  lemma GatherSnoc(store: seq<Record>, idx: seq<nat>, x: nat)
    requires IsPositions(idx + [x], |store|)
    ensures IsPositions(idx, |store|) && x < |store|
    ensures Gather(store, idx + [x]) == Gather(store, idx) + [store[x]]
  {
    assert (idx + [x])[|idx|] == x;
    assert forall i :: 0 <= i < |idx| ==> (idx + [x])[i] == idx[i];
  }

  /** Filtering positions is filtering the rows they refer to. */
  lemma {:induction false} KeepNonEmptyData(store: seq<Record>, idx: seq<nat>)
    requires IsPositions(idx, |store|)
    ensures Gather(store, KeepNonEmpty(store, idx)) == NonEmptyRows(Gather(store, idx))
  {
    if idx != [] {
      var front := idx[..|idx| - 1];
      var last := idx[|idx| - 1];
      assert idx == front + [last];
      GatherSnoc(store, front, last);
      KeepNonEmptyData(store, front);
      var rows := Gather(store, front) + [store[last]];
      assert rows[..|rows| - 1] == Gather(store, front);
      var prev := KeepNonEmpty(store, front);
      if HasValue(store[last]) {
        GatherSnoc(store, prev, last);
      }
    }
  }

  /** A second filter pass removes nothing. */
  lemma {:induction false} KeepNonEmptyIdempotent(store: seq<Record>, idx: seq<nat>)
    requires IsPositions(idx, |store|)
    ensures KeepNonEmpty(store, KeepNonEmpty(store, idx)) == KeepNonEmpty(store, idx)
  {
    if idx != [] {
      var front := idx[..|idx| - 1];
      var last := idx[|idx| - 1];
      KeepNonEmptyIdempotent(store, front);
      var prev := KeepNonEmpty(store, front);
      if HasValue(store[last]) {
        var r := prev + [last];
        assert r[..|r| - 1] == prev;
      }
    }
  }

  // ------------------------------------------------------------ repairs over the row store

  /** The row store after a stage has repaired the rows at the positions `idx`. */
  function RepairAt(rule: Rule, store: seq<Record>, idx: seq<nat>): (r: seq<Record>)
    ensures |r| == |store|
  {
    seq(|store|, i requires 0 <= i < |store| =>
      if i in idx then RepairRecord(rule, store[i]) else store[i])
  }

  /** Repairing one more position: only that row changes, and the counter grows
      by that row's count. */
  lemma RepairAtStep(rule: Rule, store: seq<Record>, idx: seq<nat>, k: nat)
    requires IsPositions(idx, |store|) && k < |idx|
    ensures IsPositions(idx[..k], |store|) && IsPositions(idx[..k + 1], |store|)
    ensures RepairAt(rule, store, idx[..k])[idx[k]] == store[idx[k]]
    ensures RepairAt(rule, store, idx[..k + 1]) ==
      RepairAt(rule, store, idx[..k])[idx[k] := RepairRecord(rule, store[idx[k]])]
    ensures FixTotal(rule, store, idx[..k + 1]) ==
      FixTotal(rule, store, idx[..k]) + FixCount(rule, store[idx[k]])
  {
    assert idx[..k + 1][..k] == idx[..k];
    assert idx[k] !in idx[..k];
    var before := RepairAt(rule, store, idx[..k]);
    var after := RepairAt(rule, store, idx[..k + 1]);
    forall i | 0 <= i < |store| ensures after[i] == before[idx[k] := RepairRecord(rule, store[idx[k]])][i] {
      assert i in idx[..k + 1] <==> i in idx[..k] || i == idx[k];
    }
  }

  /** The counter a stage reports for the rows at the positions `idx`. */
  function FixTotal(rule: Rule, store: seq<Record>, idx: seq<nat>): nat
    requires IsPositions(idx, |store|)
  {
    if idx == [] then 0
    else FixTotal(rule, store, idx[..|idx| - 1]) + FixCount(rule, store[idx[|idx| - 1]])
  }

  /** The cleaned rows after a stage are the cleaned rows before it, each repaired. */
  lemma GatherRepairAt(rule: Rule, store: seq<Record>, idx: seq<nat>)
    requires IsPositions(idx, |store|)
    ensures var after := Gather(RepairAt(rule, store, idx), idx);
      |after| == |idx| &&
      forall i :: 0 <= i < |idx| ==> after[i] == RepairRecord(rule, Gather(store, idx)[i])
  {
  }

  /** Running the phone stage a second time over the same positions changes no
      row and reports 0. */
  lemma {:induction false} PhoneStageTwice(store: seq<Record>, idx: seq<nat>)
    requires IsPositions(idx, |store|)
    ensures RepairAt(PhoneRule, RepairAt(PhoneRule, store, idx), idx) == RepairAt(PhoneRule, store, idx)
    ensures FixTotal(PhoneRule, RepairAt(PhoneRule, store, idx), idx) == 0
  {
    var once := RepairAt(PhoneRule, store, idx);
    forall i | 0 <= i < |store| && i in idx
      ensures RepairRecord(PhoneRule, once[i]) == once[i]
    {
      PhoneStageIdempotent(store[i]);
    }
    NoPhoneFixesLeft(store, idx, idx);
  }

  lemma {:induction false} NoPhoneFixesLeft(store: seq<Record>, idx: seq<nat>, sub: seq<nat>)
    requires IsPositions(idx, |store|) && IsPositions(sub, |store|)
    requires forall x :: x in sub ==> x in idx
    ensures FixTotal(PhoneRule, RepairAt(PhoneRule, store, idx), sub) == 0
  {
    if sub != [] {
      var last := sub[|sub| - 1];
      NoPhoneFixesLeft(store, idx, sub[..|sub| - 1]);
      PhoneStageIdempotent(store[last]);
    }
  }

  // ------------------------------------------------------------ the page state

  /** The `stats` record shown on the page. */
  datatype Stats = Stats(originalRows: nat, cleanedRows: nat, emailsFixed: nat, phonesFixed: nat)

  /** The inner `forEach` over the targeted columns of one row: returns the
      repaired row and how many repair branches were counted. */
  method RepairFields(rule: Rule, row: Record) returns (fixedRow: Record, fixed: nat)
    ensures fixedRow == RepairRecord(rule, row)
    ensures fixed == FixCount(rule, row)
  {
    var columns := set k | k in row && Targets(rule, k);
    var repair := v => RepairValue(rule, v);
    fixedRow, fixed := RepairColumns(columns, repair, row);
    RepairColumnsOfRule(rule, row, columns, repair, fixedRow);
    CountColumnsOfRule(rule, row, columns, repair);
  }

  lemma RepairColumnsOfRule(rule: Rule, row: Record, columns: set<string>,
                            repair: string -> Fix, fixedRow: Record)
    requires forall k :: k in columns <==> k in row && Targets(rule, k)
    requires forall v :: repair(v) == RepairValue(rule, v)
    requires fixedRow.Keys == row.Keys
    requires forall k :: k in row ==>
      fixedRow[k] == if k in columns then repair(row[k]).value else row[k]
    ensures fixedRow == RepairRecord(rule, row)
  {
  }

  lemma CountColumnsOfRule(rule: Rule, row: Record, columns: set<string>, repair: string -> Fix)
    requires forall k :: k in columns <==> k in row && Targets(rule, k)
    requires forall v :: repair(v) == RepairValue(rule, v)
    ensures |set k | k in columns && repair(row[k]).counted| == FixCount(rule, row)
  {
    assert (set k | k in columns && repair(row[k]).counted)
        == set k | k in row && Targets(rule, k) && RepairValue(rule, row[k]).counted;
  }

  /** The loop over `columns`, with the per-value repair as a parameter. */
  method RepairColumns(columns: set<string>, repair: string -> Fix, row: Record)
    returns (fixedRow: Record, fixed: nat)
    requires columns <= row.Keys
    ensures fixedRow.Keys == row.Keys
    ensures forall k :: k in row ==>
      fixedRow[k] == if k in columns then repair(row[k]).value else row[k]
    ensures fixed == |set k | k in columns && repair(row[k]).counted|
  {
    ghost var hits := set k | k in columns && repair(row[k]).counted;
    assert columns * hits == hits;
    var todo := columns;
    fixedRow, fixed := row, 0;
    while todo != {}
      invariant todo <= columns
      invariant fixedRow.Keys == row.Keys
      invariant forall k :: k in row ==>
        fixedRow[k] == if k in columns && k !in todo then repair(row[k]).value else row[k]
      invariant fixed + |todo * hits| == |hits|
      decreases |todo|
    {
      var column :| column in todo;
      var f := repair(fixedRow[column]);
      CountRemoveOne(todo, hits, column);
      fixedRow := fixedRow[column := f.value];
      todo := todo - {column};
      if f.counted {
        fixed := fixed + 1;
      }
    }
    assert todo * hits == {};
  }

  lemma CountRemoveOne<T>(todo: set<T>, hits: set<T>, c: T)
    requires c in todo
    ensures |todo * hits| == |(todo - {c}) * hits| + if c in hits then 1 else 0
  {
    if c in hits {
      assert todo * hits == (todo - {c}) * hits + {c};
    } else {
      assert todo * hits == (todo - {c}) * hits;
    }
  }

  method BuildRow(headers: seq<string>, values: seq<string>) returns (row: Record)
    ensures row == RecordFor(headers, values)
  {
    row := map[];
    for index := 0 to |headers|
      invariant row == RecordFor(headers[..index], values)
    {
      assert headers[..index + 1][..index] == headers[..index];
      row := row[headers[index] := FieldAt(values, index)];
    }
    assert headers[..|headers|] == headers;
  }

  /** The loop of `parseCSV` over the lines after the header. */
  method ParseLines(headers: seq<string>, lines: seq<string>) returns (parsed: seq<Record>)
    ensures parsed == RecordsOf(headers, lines)
  {
    parsed := [];
    for i := 0 to |lines|
      invariant parsed == RecordsOf(headers, lines[..i])
    {
      assert lines[..i + 1][..i] == lines[..i];
      if Trim(lines[i]) == [] {
        continue;
      }
      var row := BuildRow(headers, TrimAll(Split(lines[i], ',')));
      parsed := parsed + [row];
    }
    assert lines[..|lines|] == lines;
  }

  class Cleaner {
    /** The row objects of `rawData`, in order. */
    var rows: array<Record>
    /** `cleanedData`, as positions in `rows`. */
    var cleaned: seq<nat>
    var stats: Stats

    ghost predicate Valid()
      reads this
    {
      IsPositions(cleaned, rows.Length)
    }

    /** What the page would show as the cleaned rows. */
    function CleanedData(): seq<Record>
      reads this, rows
      requires Valid()
    {
      Gather(rows[..], cleaned)
    }

    constructor ()
      ensures Valid() && rows.Length == 0 && cleaned == []
      ensures stats == Stats(0, 0, 0, 0)
    {
      rows := new Record[0];
      cleaned := [];
      stats := Stats(0, 0, 0, 0);
    }

    /** `parseCSV`: replaces the raw rows by freshly built records, makes the
        cleaned list a copy of them, and sets `originalRows`; the other counters
        are left as they were. */
    method ParseCSV(text: string)
      modifies this
      ensures Valid() && fresh(rows)
      ensures rows[..] == ParseRecords(text)
      ensures cleaned == AllPositions(rows.Length)
      ensures stats == old(stats).(originalRows := rows.Length)
    {
      var lines := Split(text, '\n');
      var parsed := ParseLines(HeaderRow(lines[0]), lines[1..]);
      rows := new Record[|parsed|](i requires 0 <= i < |parsed| => parsed[i]);
      cleaned := AllPositions(rows.Length);
      stats := stats.(originalRows := rows.Length);
    }

    /** `removeEmptyRows`: drops from the cleaned list the rows with no non-blank
        value and records the new length; nothing happens while no data is loaded. */
    method RemoveEmptyRows()
      requires Valid()
      modifies this
      ensures Valid() && rows == old(rows)
      ensures rows.Length == 0 ==> cleaned == old(cleaned) && stats == old(stats)
      ensures rows.Length > 0 ==>
        && cleaned == KeepNonEmpty(rows[..], old(cleaned))
        && stats == old(stats).(cleanedRows := |cleaned|)
    {
      if rows.Length == 0 {
        return;
      }
      cleaned := KeepNonEmpty(rows[..], cleaned);
      stats := stats.(cleanedRows := |cleaned|);
    }

    /** One repair stage over the cleaned rows, written into the shared row
        objects; returns the stage's counter. */
    method RepairCleaned(rule: Rule) returns (fixed: nat)
      requires Valid()
      modifies rows
      ensures rows[..] == RepairAt(rule, old(rows[..]), cleaned)
      ensures fixed == FixTotal(rule, old(rows[..]), cleaned)
    {
      fixed := 0;
      ghost var store := rows[..];
      for k := 0 to |cleaned|
        invariant rows[..] == RepairAt(rule, store, cleaned[..k])
        invariant fixed == FixTotal(rule, store, cleaned[..k])
      {
        RepairAtStep(rule, store, cleaned, k);
        var row, n := RepairFields(rule, rows[cleaned[k]]);
        rows[cleaned[k]] := row;
        fixed := fixed + n;
      }
      assert cleaned[..|cleaned|] == cleaned;
    }

    /** `validateEmails`: repairs the e-mail columns of the cleaned rows (and so
        of the raw rows they share) and sets, not adds to, `emailsFixed`. */
    method ValidateEmails()
      requires Valid()
      modifies this, rows
      ensures Valid() && rows == old(rows) && cleaned == old(cleaned)
      ensures rows.Length == 0 ==> stats == old(stats)
      ensures rows.Length > 0 ==>
        && rows[..] == RepairAt(EmailRule, old(rows[..]), cleaned)
        && stats == old(stats).(emailsFixed := FixTotal(EmailRule, old(rows[..]), cleaned),
                                cleanedRows := |cleaned|)
    {
      if rows.Length == 0 {
        return;
      }
      var fixed := RepairCleaned(EmailRule);
      stats := stats.(emailsFixed := fixed, cleanedRows := |cleaned|);
    }

    /** `standardizePhones`: formats the phone columns of the cleaned rows and
        sets, not adds to, `phonesFixed`. */
    method StandardizePhones()
      requires Valid()
      modifies this, rows
      ensures Valid() && rows == old(rows) && cleaned == old(cleaned)
      ensures rows.Length == 0 ==> stats == old(stats)
      ensures rows.Length > 0 ==>
        && rows[..] == RepairAt(PhoneRule, old(rows[..]), cleaned)
        && stats == old(stats).(phonesFixed := FixTotal(PhoneRule, old(rows[..]), cleaned),
                                cleanedRows := |cleaned|)
    {
      if rows.Length == 0 {
        return;
      }
      var fixed := RepairCleaned(PhoneRule);
      stats := stats.(phonesFixed := fixed, cleanedRows := |cleaned|);
    }

    /** `cleanAllData`: resets the cleaned list to every raw row, zeroes the two
        fix counters, then removes empty rows, repairs e-mails and formats phones.
        Repairs made by earlier runs stay in the shared rows. */
    method CleanAll()
      requires Valid()
      modifies this, rows
      ensures Valid() && rows == old(rows)
      ensures rows.Length == 0 ==> cleaned == old(cleaned) && stats == old(stats)
      ensures rows.Length > 0 ==>
        var kept := KeepNonEmpty(old(rows[..]), AllPositions(rows.Length));
        var mailed := RepairAt(EmailRule, old(rows[..]), kept);
        && cleaned == kept
        && rows[..] == RepairAt(PhoneRule, mailed, kept)
        && stats == Stats(old(stats).originalRows, |kept|,
                          FixTotal(EmailRule, old(rows[..]), kept),
                          FixTotal(PhoneRule, mailed, kept))
    {
      if rows.Length == 0 {
        return;
      }
      cleaned := AllPositions(rows.Length);
      stats := stats.(emailsFixed := 0, phonesFixed := 0);
      RemoveEmptyRows();
      ValidateEmails();
      StandardizePhones();
    }
  }
}
