/** What dd's conversions make of a whole input: records of fixed length, lines, and the ways back. */
module DdRecords {
  newtype Byte = x: int | 0 <= x < 256

  type Bytes = seq<Byte>

  const NEWLINE: Byte := 10
  const SPACE: Byte := 32

  function Fill(n: nat, c: Byte): (r: Bytes)
    ensures |r| == n && forall i :: 0 <= i < n ==> r[i] == c
  {
    seq(n, i => c)
  }

  ghost predicate Newlineless(s: Bytes) {
    NoNewline(s, 0, |s|)
  }

  ghost predicate NoNewline(s: Bytes, i: nat, j: nat)
    requires i <= j <= |s|
  {
    forall k :: i <= k < j ==> s[k] != NEWLINE
  }

  /** How many bytes come before the first newline. */
  ghost function LineLength(s: Bytes): (n: nat)
    ensures n <= |s| && NoNewline(s, 0, n) && (n < |s| ==> s[n] == NEWLINE)
  {
    if s == [] || s[0] == NEWLINE then 0
    else
      var n := LineLength(s[1..]);
      assert forall k :: 0 < k <= n ==> s[k] == s[1..][k - 1];
      n + 1
  }

  /** What follows the first newline. */
  ghost function AfterLine(s: Bytes): Bytes {
    if LineLength(s) < |s| then s[LineLength(s) + 1..] else []
  }

  // ---- conv=block ----

  /** A line as a record of cbsz bytes: cut, or padded with spaces. */
  ghost function Record(line: Bytes, cbsz: nat): (r: Bytes)
    ensures |r| == cbsz && forall i :: 0 <= i < cbsz ==> r[i] == if i < |line| then line[i] else SPACE
  {
    if |line| < cbsz then line + Fill(cbsz - |line|, SPACE) else line[..cbsz]
  }

  /** The records of an input; bytes after the last newline make a record of their own. */
  ghost function Blocked(s: Bytes, cbsz: nat): Bytes
    decreases |s|
  {
    if s == [] then [] else Record(s[..LineLength(s)], cbsz) + Blocked(AfterLine(s), cbsz)
  }

  /** No newline, and too few bytes for a record: what block keeps until its line goes on. */
  ghost predicate Unfinished(s: Bytes, cbsz: nat) {
    LineLength(s) == |s| < cbsz
  }

  /** The records of an input when there is a table.  Everything is translated, the padding too, except
      the bytes of a line that the input has left unfinished. */
  ghost function BlockedBy(s: Bytes, cbsz: nat, table: Byte -> Byte): Bytes
    decreases |s|
  {
    if s == [] then []
    else if Unfinished(s, cbsz) then s + Fill(cbsz - |s|, table(SPACE))
    else Translated(Record(s[..LineLength(s)], cbsz), table) + BlockedBy(AfterLine(s), cbsz, table)
  }

  /** What follows the last newline. */
  ghost function LastPart(s: Bytes): (r: Bytes)
    ensures Newlineless(r) && |r| <= |s| && s[|s| - |r|..] == r
    ensures |r| < |s| ==> s[|s| - |r| - 1] == NEWLINE
    decreases |s|
  {
    var n := LineLength(s);
    if n == |s| then s
    else
      var rest := AfterLine(s);
      var r := LastPart(rest);
      assert s[|s| - |r|..] == rest[|rest| - |r|..];
      r
  }

  ghost predicate Fixes(table: Byte -> Byte, s: Bytes) {
    forall i :: 0 <= i < |s| ==> table(s[i]) == s[i]
  }

  /** A table does to the output what it does to each byte just when what follows the last newline is a
      record at least, or the table changes none of its bytes. */
  lemma {:induction false} TableThroughout(s: Bytes, cbsz: nat, table: Byte -> Byte)
    requires cbsz > 0
    ensures BlockedBy(s, cbsz, table) == Translated(Blocked(s, cbsz), table)
            <==> |LastPart(s)| >= cbsz || Fixes(table, LastPart(s))
    decreases |s|
  {
    if s != [] {
      var n, rest := LineLength(s), AfterLine(s);
      var record := Record(s[..n], cbsz);
      TranslatedParts(record, Blocked(rest, cbsz), table);
      if n == |s| {
        assert s[..n] == s;
        hide LineLength;
        WholeInput(s, cbsz, table);
      } else {
        TableThroughout(rest, cbsz, table);
        SameFront(Translated(record, table), BlockedBy(rest, cbsz, table), Translated(Blocked(rest, cbsz), table));
      }
    }
  }

  /** No table changes nothing. */
  ghost predicate Identity(table: Byte -> Byte) {
    forall b :: table(b) == b
  }

  lemma {:induction false} WithoutTable(s: Bytes, cbsz: nat, table: Byte -> Byte)
    requires cbsz > 0 && Identity(table)
    ensures BlockedBy(s, cbsz, table) == Blocked(s, cbsz)
  {
    TableThroughout(s, cbsz, table);
    assert Translated(Blocked(s, cbsz), table) == Blocked(s, cbsz);
  }

  /** An input for which it does not: one byte, which the table changes, and no newline. */
  lemma {:induction false} NotThroughout(b: Byte, cbsz: nat, table: Byte -> Byte)
    requires cbsz > 1 && b != NEWLINE && table(b) != b
    ensures BlockedBy([b], cbsz, table)[0] == b && Translated(Blocked([b], cbsz), table)[0] == table(b)
    ensures BlockedBy([b], cbsz, table) != Translated(Blocked([b], cbsz), table)
  {
    LineLengthIs([b], 1);
    assert [b][..1] == [b] && AfterLine([b]) == [];
    assert Blocked([b], cbsz) == Record([b], cbsz) + [] == Record([b], cbsz);
  }

  lemma SameFront(a: Bytes, b: Bytes, c: Bytes)
    ensures a + b == a + c <==> b == c
  {
    if a + b == a + c {
      assert b == (a + b)[|a|..] && c == (a + c)[|a|..];
    }
  }

  /** An input without a newline. */
  lemma {:induction false} WholeInput(s: Bytes, cbsz: nat, table: Byte -> Byte)
    requires cbsz > 0 && s != [] && LineLength(s) == |s|
    ensures BlockedBy(s, cbsz, table) == Translated(Blocked(s, cbsz), table) <==> |s| >= cbsz || Fixes(table, s)
  {
    var record := Record(s, cbsz);
    assert s[..|s|] == s && AfterLine(s) == [];
    assert Blocked(s, cbsz) == record + [] == record;
    if |s| < cbsz {
      var raw, out := s + Fill(cbsz - |s|, table(SPACE)), Translated(record, table);
      assert forall i :: 0 <= i < |s| ==> raw[i] == s[i] && out[i] == table(s[i]);
      assert forall i :: |s| <= i < cbsz ==> raw[i] == table(SPACE) == out[i];
    } else {
      assert BlockedBy(s, cbsz, table) == Translated(record, table) + [] == Translated(record, table);
    }
  }

  // ---- conv=unblock ----

  /** A record without its trailing spaces. */
  ghost function Trimmed(s: Bytes): (r: Bytes)
    ensures r <= s && (r != [] ==> r[|r| - 1] != SPACE) && forall i :: |r| <= i < |s| ==> s[i] == SPACE
  {
    if s == [] || s[|s| - 1] != SPACE then s else Trimmed(s[..|s| - 1])
  }

  /** The lines of an input of records; what is left over at the end makes a line too. */
  ghost function Unblocked(s: Bytes, cbsz: nat): Bytes
    requires cbsz > 0
    decreases |s|
  {
    if s == [] then []
    else if |s| < cbsz then Trimmed(s) + [NEWLINE]
    else Trimmed(s[..cbsz]) + [NEWLINE] + Unblocked(s[cbsz..], cbsz)
  }

  // ---- no conversion but a table ----

  ghost function Translated(s: Bytes, table: Byte -> Byte): (r: Bytes)
    ensures |r| == |s| && forall i :: 0 <= i < |s| ==> r[i] == table(s[i])
  {
    seq(|s|, i requires 0 <= i < |s| => table(s[i]))
  }

  lemma TranslatedParts(a: Bytes, b: Bytes, table: Byte -> Byte)
    ensures Translated(a + b, table) == Translated(a, table) + Translated(b, table)
  {
  }

  // ---- where the lines are ----

  lemma LineLengthIs(s: Bytes, n: nat)
    requires n <= |s| && NoNewline(s, 0, n) && (n < |s| ==> s[n] == NEWLINE)
    ensures LineLength(s) == n
  {
  }

  lemma {:induction false} SkipTo(d: Bytes, n: nat, rest: Bytes)
    requires n < |d| && d[n] == NEWLINE && NoNewline(d, 0, n)
    ensures AfterLine(d + rest) == d[n + 1..] + rest
  {
    LineLengthIs(d + rest, n);
  }

  /** A line that is all there, whatever comes after. */
  lemma {:induction false} WholeLine(d: Bytes, n: nat, rest: Bytes, cbsz: nat)
    requires n < |d| && d[n] == NEWLINE && NoNewline(d, 0, n)
    ensures Blocked(d + rest, cbsz) == Record(d[..n], cbsz) + Blocked(d[n + 1..] + rest, cbsz)
  {
    SkipTo(d, n, rest);
    LineLengthIs(d + rest, n);
    Prefix(d, rest, n);
    hide LineLength, AfterLine, Record, NoNewline;
  }

  lemma {:induction false} WholeLineBy(d: Bytes, n: nat, rest: Bytes, cbsz: nat, table: Byte -> Byte)
    requires n < |d| && d[n] == NEWLINE && NoNewline(d, 0, n)
    ensures BlockedBy(d + rest, cbsz, table)
            == Translated(Record(d[..n], cbsz), table) + BlockedBy(d[n + 1..] + rest, cbsz, table)
  {
    SkipTo(d, n, rest);
    LineLengthIs(d + rest, n);
    Prefix(d, rest, n);
    hide LineLength, AfterLine, Record, NoNewline, Translated;
  }

  lemma Prefix(d: Bytes, rest: Bytes, n: nat)
    requires n <= |d|
    ensures (d + rest)[..n] == d[..n]
  {
  }

  /** A line whose end has not come yet, but whose record is full. */
  lemma {:induction false} FullLine(d: Bytes, rest: Bytes, cbsz: nat, table: Byte -> Byte)
    requires 0 < cbsz <= |d| && Newlineless(d)
    ensures BlockedBy(d + rest, cbsz, table)
            == Translated(Record(d, cbsz), table) + BlockedBy(AfterLine(rest), cbsz, table)
  {
    var s, n := d + rest, |d| + LineLength(rest);
    assert forall k :: |d| <= k < n ==> s[k] == rest[k - |d|];
    LineLengthIs(s, n);
    SkipOn(d, rest);
    assert Record(s[..n], cbsz) == Record(d, cbsz) == d[..cbsz];
  }

  /** Skipping to the end of a line, piece by piece. */
  lemma {:induction false} SkipOn(d: Bytes, rest: Bytes)
    requires Newlineless(d)
    ensures AfterLine(d + rest) == AfterLine(rest)
  {
    var s, m := d + rest, LineLength(rest);
    assert forall k :: |d| <= k < |d| + m ==> s[k] == rest[k - |d|];
    LineLengthIs(s, |d| + m);
    if m < |rest| {
      assert s[|d| + m + 1..] == rest[m + 1..];
    }
  }

  // ---- round trips ----

  /** A text of lines, each ended by a newline. */
  ghost function Text(lines: seq<Bytes>): Bytes {
    if lines == [] then [] else lines[0] + [NEWLINE] + Text(lines[1..])
  }

  /** A line that fits a record and can be told from its padding. */
  ghost predicate Fits(line: Bytes, cbsz: nat) {
    |line| <= cbsz && Newlineless(line) && (line != [] ==> line[|line| - 1] != SPACE)
  }

  lemma TrimmedIs(s: Bytes, r: Bytes)
    requires r <= s && (r != [] ==> r[|r| - 1] != SPACE) && forall i :: |r| <= i < |s| ==> s[i] == SPACE
    ensures Trimmed(s) == r
  {
    var t := Trimmed(s);
    assert r != [] ==> r[|r| - 1] == s[|r| - 1];
    assert t != [] ==> t[|t| - 1] == s[|t| - 1];
  }

  ghost function TrimmedRecords(lines: seq<Bytes>, cbsz: nat): (r: seq<Bytes>)
    ensures |r| == |lines|
  {
    if lines == [] then [] else [Trimmed(Record(lines[0], cbsz))] + TrimmedRecords(lines[1..], cbsz)
  }

  lemma {:induction false} TrimmedRecordsAt(lines: seq<Bytes>, cbsz: nat, i: nat)
    requires i < |lines|
    ensures TrimmedRecords(lines, cbsz)[i] == Trimmed(Record(lines[i], cbsz))
  {
    if i > 0 {
      TrimmedRecordsAt(lines[1..], cbsz, i - 1);
    }
  }

  ghost predicate AllNewlineless(lines: seq<Bytes>) {
    forall i :: 0 <= i < |lines| ==> Newlineless(lines[i])
  }

  /** unblock after block cuts every line to a record and trims it. */
  lemma {:induction false} UnblockedBlocked(lines: seq<Bytes>, cbsz: nat)
    requires cbsz > 0 && AllNewlineless(lines)
    ensures Unblocked(Blocked(Text(lines), cbsz), cbsz) == Text(TrimmedRecords(lines, cbsz))
  {
    if lines != [] {
      var line, rest := lines[0], Text(lines[1..]);
      var d := line + [NEWLINE];
      assert d[..|line|] == line && d[|line| + 1..] + rest == rest;
      WholeLine(d, |line|, rest, cbsz);
      var record, more := Record(line, cbsz), Blocked(rest, cbsz);
      FirstRecord(record, more, cbsz);
      assert TrimmedRecords(lines, cbsz)[1..] == TrimmedRecords(lines[1..], cbsz);
      hide Unblocked, Blocked, Trimmed, Record;
      UnblockedBlocked(lines[1..], cbsz);
    }
  }

  lemma {:induction false} FirstRecord(record: Bytes, more: Bytes, cbsz: nat)
    requires |record| == cbsz > 0
    ensures Unblocked(record + more, cbsz) == Trimmed(record) + [NEWLINE] + Unblocked(more, cbsz)
  {
    assert (record + more)[..cbsz] == record && (record + more)[cbsz..] == more;
  }

  /** A text determines its lines. */
  lemma {:induction false} TextDetermines(a: seq<Bytes>, b: seq<Bytes>)
    requires AllNewlineless(a) && AllNewlineless(b) && Text(a) == Text(b)
    ensures a == b
  {
    if a != [] && b != [] {
      FirstLine(a);
      FirstLine(b);
      TextDetermines(a[1..], b[1..]);
      assert a == [a[0]] + a[1..] && b == [b[0]] + b[1..];
    }
  }

  lemma FirstLine(a: seq<Bytes>)
    requires a != [] && Newlineless(a[0])
    ensures a[0] == Text(a)[..LineLength(Text(a))] && Text(a[1..]) == AfterLine(Text(a))
  {
    var d := a[0] + [NEWLINE];
    assert d[..|a[0]|] == a[0];
    assert Text(a)[..|a[0]|] == a[0];
    LineLengthIs(Text(a), |a[0]|);
  }

  lemma FitsExactly(line: Bytes, cbsz: nat)
    requires Newlineless(line)
    ensures Trimmed(Record(line, cbsz)) == line <==> Fits(line, cbsz)
  {
    if Fits(line, cbsz) {
      TrimmedIs(Record(line, cbsz), line);
    }
  }

  /** unblock after block gives a text back just when all its lines fit: none longer than a record, none
      with a space at its end. */
  lemma {:induction false} BlockThenUnblock(lines: seq<Bytes>, cbsz: nat)
    requires cbsz > 0 && AllNewlineless(lines)
    ensures Unblocked(Blocked(Text(lines), cbsz), cbsz) == Text(lines)
            <==> forall i :: 0 <= i < |lines| ==> Fits(lines[i], cbsz)
  {
    UnblockedBlocked(lines, cbsz);
    hide Unblocked, Blocked, Text, Fits, Trimmed, Record;
    var t := TrimmedRecords(lines, cbsz);
    forall i | 0 <= i < |lines| ensures t[i] == lines[i] <==> Fits(lines[i], cbsz) {
      TrimmedRecordsAt(lines, cbsz, i);
      FitsExactly(lines[i], cbsz);
    }
    forall i | 0 <= i < |t| ensures Newlineless(t[i]) {
      TrimmedRecordsAt(lines, cbsz, i);
      RecordNewlineless(lines[i], cbsz);
    }
    if forall i :: 0 <= i < |lines| ==> Fits(lines[i], cbsz) {
      assert t == lines;
    }
    if Text(t) == Text(lines) {
      TextDetermines(t, lines);
    }
  }

  lemma RecordNewlineless(line: Bytes, cbsz: nat)
    requires Newlineless(line)
    ensures Newlineless(Trimmed(Record(line, cbsz)))
  {
    var r, t := Record(line, cbsz), Trimmed(Record(line, cbsz));
    assert forall i :: 0 <= i < |t| ==> t[i] == r[i];
  }

  /** The number of lines, a last one without its newline included. */
  ghost function Lines(s: Bytes): nat
    decreases |s|
  {
    if s == [] then 0 else 1 + Lines(AfterLine(s))
  }

  /** How many whole records there are, and whether nothing is left over. */
  ghost function Records(s: Bytes, cbsz: nat): nat
    requires cbsz > 0
    decreases |s|
  {
    if |s| < cbsz then 0 else 1 + Records(s[cbsz..], cbsz)
  }

  ghost predicate Whole(s: Bytes, cbsz: nat)
    requires cbsz > 0
    decreases |s|
  {
    s == [] || (|s| >= cbsz && Whole(s[cbsz..], cbsz))
  }

  lemma {:induction false} WholeLength(s: Bytes, cbsz: nat)
    requires cbsz > 0
    ensures Whole(s, cbsz) <==> |s| == Records(s, cbsz) * cbsz
    ensures |s| < Records(s, cbsz) * cbsz + cbsz && |s| >= Records(s, cbsz) * cbsz
    decreases |s|
  {
    if |s| >= cbsz {
      WholeLength(s[cbsz..], cbsz);
      assert (1 + Records(s[cbsz..], cbsz)) * cbsz == cbsz + Records(s[cbsz..], cbsz) * cbsz;
    }
  }

  lemma {:induction false} BlockedRecords(s: Bytes, cbsz: nat)
    requires cbsz > 0
    ensures Whole(Blocked(s, cbsz), cbsz) && Records(Blocked(s, cbsz), cbsz) == Lines(s)
    decreases |s|
  {
    if s != [] {
      var rest := AfterLine(s);
      BlockedRecords(rest, cbsz);
      var record, more := Record(s[..LineLength(s)], cbsz), Blocked(rest, cbsz);
      assert (record + more)[cbsz..] == more;
    }
  }

  /** A newline more makes a line more. */
  lemma {:induction false} LinesAtLeast(line: Bytes, rest: Bytes)
    ensures Lines(line + [NEWLINE] + rest) >= 1 + Lines(rest)
    ensures Lines(line + [NEWLINE] + rest) == 1 + Lines(rest) <==> Newlineless(line)
    decreases |line|
  {
    var n := LineLength(line);
    var d := line + [NEWLINE];
    assert d[..n] == line[..n] && d[n] == NEWLINE;
    SkipTo(d, n, rest);
    if n == |line| {
      assert line[..n] == line;
      assert d[n + 1..] + rest == rest;
    } else {
      LinesAtLeast(line[n + 1..], rest);
      assert d[n + 1..] == line[n + 1..] + [NEWLINE];
    }
  }

  lemma {:induction false} LinesOfUnblocked(s: Bytes, cbsz: nat)
    requires cbsz > 0 && Whole(s, cbsz)
    ensures Lines(Unblocked(s, cbsz)) >= Records(s, cbsz)
    ensures Lines(Unblocked(s, cbsz)) == Records(s, cbsz) <==> Newlineless(s)
    decreases |s|
  {
    if s != [] {
      var record, rest := s[..cbsz], s[cbsz..];
      assert s == record + rest;
      LinesOfUnblocked(rest, cbsz);
      LinesStep(record, rest, cbsz);
      NewlinelessParts(record, rest);
    }
  }

  lemma {:induction false} LinesStep(record: Bytes, rest: Bytes, cbsz: nat)
    requires |record| == cbsz > 0
    ensures var n, m := Lines(Unblocked(record + rest, cbsz)), 1 + Lines(Unblocked(rest, cbsz));
            n >= m && (n == m <==> Newlineless(record))
  {
    FirstRecord(record, rest, cbsz);
    hide Unblocked, Lines, Trimmed;
    LinesAtLeast(Trimmed(record), Unblocked(rest, cbsz));
    TrimmedNewlineless(record);
  }

  lemma TrimmedNewlineless(record: Bytes)
    ensures Newlineless(Trimmed(record)) <==> Newlineless(record)
  {
    var t := Trimmed(record);
    assert forall i :: 0 <= i < |t| ==> t[i] == record[i];
  }

  lemma NewlinelessParts(a: Bytes, b: Bytes)
    ensures Newlineless(a + b) <==> Newlineless(a) && Newlineless(b)
  {
    assert forall i :: 0 <= i < |a| ==> (a + b)[i] == a[i];
    assert forall i :: 0 <= i < |b| ==> (a + b)[|a| + i] == b[i];
  }

  lemma {:induction false} WholeRecordsBack(s: Bytes, cbsz: nat)
    requires cbsz > 0 && Whole(s, cbsz) && Newlineless(s)
    ensures Blocked(Unblocked(s, cbsz), cbsz) == s
    decreases |s|
  {
    if s != [] {
      var record, rest := s[..cbsz], s[cbsz..];
      assert s == record + rest;
      NewlinelessParts(record, rest);
      WholeRecordsBack(rest, cbsz);
      var line, more := Trimmed(record), Unblocked(rest, cbsz);
      TrimmedNewlineless(record);
      var d := line + [NEWLINE];
      assert d[..|line|] == line && d[|line| + 1..] + more == more;
      WholeLine(d, |line|, more, cbsz);
      RecordOfTrimmed(record);
    }
  }

  lemma RecordOfTrimmed(record: Bytes)
    ensures Record(Trimmed(record), |record|) == record
  {
  }

  /** The length is a multiple of cbsz. */
  ghost predicate Even(s: Bytes, cbsz: nat)
    requires cbsz > 0
  {
    |s| % cbsz == 0
  }

  lemma {:induction false} WholeIsEven(s: Bytes, cbsz: nat)
    requires cbsz > 0
    ensures Whole(s, cbsz) <==> Even(s, cbsz)
  {
    WholeLength(s, cbsz);
    Remainder(|s|, Records(s, cbsz), cbsz, |s| - Records(s, cbsz) * cbsz);
  }

  lemma Remainder(n: nat, q: nat, d: nat, r: nat)
    requires d > r && n == q * d + r
    ensures n % d == r
  {
    var k := n / d - q;
    assert n % d - r == -(k * d) by {
      assert n == n / d * d + n % d;
      assert n / d * d == (q + k) * d == q * d + k * d;
    }
    Multiple(k, d);
  }

  lemma Multiple(k: int, d: int)
    requires d >= 0
    ensures k > 0 ==> k * d >= d
    ensures k < 0 ==> k * d <= -d
    ensures k == 0 ==> k * d == 0
  {
  }

  // ---- what stands where ----

  /** Record i of a text holds line i, cut or padded, and there are no other records. */
  lemma {:induction false} BlockedAt(lines: seq<Bytes>, cbsz: nat, i: nat, at: nat, j: nat)
    requires cbsz > 0 && AllNewlineless(lines) && i < |lines| && at == i * cbsz && j < cbsz
    ensures var r := Blocked(Text(lines), cbsz);
            && |r| == |lines| * cbsz && at + j < |r|
            && r[at + j] == if j < |lines[i]| then lines[i][j] else SPACE
  {
    hide Blocked, Text;
    TextRecords(lines, cbsz);
    TimesIs(i, cbsz);
    TimesIs(|lines|, cbsz);
    RecordsAt(lines, cbsz, i, j);
  }

  /** The records of some lines, one after another. */
  ghost function RecordsOf(lines: seq<Bytes>, cbsz: nat): Bytes {
    if lines == [] then [] else Record(lines[0], cbsz) + RecordsOf(lines[1..], cbsz)
  }

  ghost function Times(k: nat, d: nat): nat {
    if k == 0 then 0 else d + Times(k - 1, d)
  }

  lemma {:induction false} TimesIs(k: nat, d: nat)
    ensures Times(k, d) == k * d
  {
    if k > 0 {
      TimesIs(k - 1, d);
    }
  }

  lemma {:induction false} RecordsAt(lines: seq<Bytes>, cbsz: nat, i: nat, j: nat)
    requires i < |lines| && j < cbsz
    ensures var r, at := RecordsOf(lines, cbsz), Times(i, cbsz);
            && |r| == Times(|lines|, cbsz) && at + j < |r|
            && r[at + j] == if j < |lines[i]| then lines[i][j] else SPACE
  {
    RecordsLength(lines, cbsz);
    var first, rest := Record(lines[0], cbsz), RecordsOf(lines[1..], cbsz);
    if i == 0 {
      assert (first + rest)[j] == first[j];
    } else {
      var at := Times(i - 1, cbsz);
      RecordsAt(lines[1..], cbsz, i - 1, j);
      assert (first + rest)[cbsz + at + j] == rest[at + j];
    }
  }

  lemma {:induction false} RecordsLength(lines: seq<Bytes>, cbsz: nat)
    ensures |RecordsOf(lines, cbsz)| == Times(|lines|, cbsz)
  {
    if lines != [] {
      RecordsLength(lines[1..], cbsz);
    }
  }

  lemma {:induction false} TextRecords(lines: seq<Bytes>, cbsz: nat)
    requires AllNewlineless(lines)
    ensures Blocked(Text(lines), cbsz) == RecordsOf(lines, cbsz)
  {
    if lines != [] {
      var line, rest := lines[0], Text(lines[1..]);
      var d := line + [NEWLINE];
      assert d[..|line|] == line && d[|line| + 1..] + rest == rest;
      WholeLine(d, |line|, rest, cbsz);
      hide Blocked, Record;
      TextRecords(lines[1..], cbsz);
    }
  }

  /** A text and what may follow its last newline, through a table: its records are translated; what follows
      fills a record, and is cut and translated too, or else goes out as it is, and only its padding is
      translated. */
  lemma {:induction false} BlockedWithTable(lines: seq<Bytes>, last: Bytes, cbsz: nat, table: Byte -> Byte)
    requires cbsz > 0 && AllNewlineless(lines) && Newlineless(last)
    ensures BlockedBy(Text(lines) + last, cbsz, table)
            == Translated(RecordsOf(lines, cbsz), table)
               + if last == [] then []
                 else if |last| < cbsz then last + Fill(cbsz - |last|, table(SPACE))
                 else Translated(last[..cbsz], table)
  {
    hide BlockedBy, Record, Translated;
    if lines == [] {
      LastWithTable(last, cbsz, table);
      assert Text(lines) + last == last;
      assert Translated(RecordsOf(lines, cbsz), table) == [];
    } else {
      var line, rest := lines[0], Text(lines[1..]) + last;
      var d := line + [NEWLINE];
      assert Text(lines) + last == d + rest;
      assert d[..|line|] == line && d[|line| + 1..] + rest == rest;
      WholeLineBy(d, |line|, rest, cbsz, table);
      BlockedWithTable(lines[1..], last, cbsz, table);
      TranslatedParts(Record(line, cbsz), RecordsOf(lines[1..], cbsz), table);
    }
  }

  lemma {:induction false} LastWithTable(last: Bytes, cbsz: nat, table: Byte -> Byte)
    requires cbsz > 0 && Newlineless(last)
    ensures BlockedBy(last, cbsz, table)
            == if last == [] then []
               else if |last| < cbsz then last + Fill(cbsz - |last|, table(SPACE))
               else Translated(last[..cbsz], table)
  {
    LineLengthIs(last, |last|);
    assert last[..|last|] == last && AfterLine(last) == [];
    if |last| >= cbsz {
      assert Record(last, cbsz) == last[..cbsz];
      assert Translated(last[..cbsz], table) + [] == Translated(last[..cbsz], table);
    }
  }

  /** What unblock makes of records: each without its trailing spaces, and with a newline. */
  lemma {:induction false} UnblockedRecords(records: seq<Bytes>, cbsz: nat)
    requires cbsz > 0 && forall i :: 0 <= i < |records| ==> |records[i]| == cbsz
    ensures Unblocked(RecordsOf(records, cbsz), cbsz) == Text(TrimmedRecords(records, cbsz))
  {
    if records != [] {
      assert Record(records[0], cbsz) == records[0];
      FirstRecord(records[0], RecordsOf(records[1..], cbsz), cbsz);
      assert TrimmedRecords(records, cbsz)[1..] == TrimmedRecords(records[1..], cbsz);
      hide Unblocked, Trimmed, Record;
      UnblockedRecords(records[1..], cbsz);
    }
  }

  // ---- a short last record ----

  /** Data, with spaces up to whole records. */
  ghost function Padded(s: Bytes, cbsz: nat): (r: Bytes)
    requires cbsz > 0
  {
    if |s| % cbsz == 0 then s else s + Fill(cbsz - |s| % cbsz, SPACE)
  }

  lemma {:induction false} PaddedRest(s: Bytes, cbsz: nat)
    requires 0 < cbsz <= |s|
    ensures Padded(s, cbsz) == s[..cbsz] + Padded(s[cbsz..], cbsz)
  {
    var q, m := |s| / cbsz, |s| % cbsz;
    assert |s| - cbsz == (q - 1) * cbsz + m;
    Multiple(q, cbsz);
    Remainder(|s| - cbsz, q - 1, cbsz, m);
    assert s == s[..cbsz] + s[cbsz..];
  }

  /** A short last record counts as if it were padded. */
  lemma {:induction false} ShortRecord(s: Bytes, cbsz: nat)
    requires cbsz > 0
    ensures Unblocked(s, cbsz) == Unblocked(Padded(s, cbsz), cbsz) && Even(Padded(s, cbsz), cbsz)
    decreases |s|
  {
    hide Unblocked, Padded, Trimmed, Even;
    if |s| < cbsz {
      ShortInput(s, cbsz);
    } else {
      var rest := s[cbsz..];
      PaddedRest(s, cbsz);
      ShortRecord(rest, cbsz);
      assert s == s[..cbsz] + rest;
      FirstRecord(s[..cbsz], rest, cbsz);
      FirstRecord(s[..cbsz], Padded(rest, cbsz), cbsz);
      EvenMore(s[..cbsz], Padded(rest, cbsz), cbsz);
    }
  }

  lemma {:induction false} ShortInput(s: Bytes, cbsz: nat)
    requires |s| < cbsz
    ensures Unblocked(s, cbsz) == Unblocked(Padded(s, cbsz), cbsz) && Even(Padded(s, cbsz), cbsz)
  {
    SmallRemainder(|s|, cbsz);
    if s != [] {
      var t, p := Trimmed(s), s + Fill(cbsz - |s|, SPACE);
      TrimmedIs(p, t);
      FirstRecord(p, [], cbsz);
      assert p + [] == p && Trimmed(p) + [NEWLINE] + [] == Trimmed(p) + [NEWLINE];
    }
  }

  lemma SmallRemainder(n: nat, d: nat)
    requires n < d
    ensures n % d == n && d % d == 0
  {
    Remainder(n, 0, d, n);
    Remainder(d, 1, d, 0);
  }

  lemma EvenMore(a: Bytes, b: Bytes, cbsz: nat)
    requires |a| == cbsz > 0 && Even(b, cbsz)
    ensures Even(a + b, cbsz)
  {
    var q := |b| / cbsz;
    assert |a + b| == (q + 1) * cbsz + 0;
    Multiple(q + 1, cbsz);
    Remainder(|a + b|, q + 1, cbsz, 0);
  }

  /** block after unblock pads data with spaces to whole records, and does no more, just when there is no
      newline in them. */
  lemma {:induction false} UnblockThenBlockPads(s: Bytes, cbsz: nat)
    requires cbsz > 0
    ensures Blocked(Unblocked(s, cbsz), cbsz) == Padded(s, cbsz) <==> Newlineless(s)
  {
    var p := Padded(s, cbsz);
    hide Blocked, Unblocked;
    ShortRecord(s, cbsz);
    UnblockThenBlock(p, cbsz);
    hide Even, Newlineless;
    if |s| % cbsz != 0 {
      NewlinelessParts(s, Fill(cbsz - |s| % cbsz, SPACE));
      NewlinelessFill(cbsz - |s| % cbsz);
    }
  }

  lemma NewlinelessFill(n: nat)
    ensures Newlineless(Fill(n, SPACE))
  {
  }

  /** block after unblock gives data back just when it is whole records with no newline in them. */
  lemma {:induction false} UnblockThenBlock(s: Bytes, cbsz: nat)
    requires cbsz > 0
    ensures Blocked(Unblocked(s, cbsz), cbsz) == s <==> Even(s, cbsz) && Newlineless(s)
  {
    var t := Unblocked(s, cbsz);
    WholeIsEven(s, cbsz);
    BlockedRecords(t, cbsz);
    if Whole(s, cbsz) {
      LinesOfUnblocked(s, cbsz);
      if Newlineless(s) {
        WholeRecordsBack(s, cbsz);
      }
    }
  }
}
