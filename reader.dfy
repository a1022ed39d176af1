// The line loop of the snapshot reader: it turns the lines of one process's
// snapshot file into records and stores them in the two-level dictionary
// snapshots[snapshotId][processId]. A header line "Snapshot <id>" starts a new
// record, labelled lines fill its fields, lines carrying "respOK" are kept as
// recorded messages, and the record being read is stored when the next header
// or the end of the file is reached.

module SnapshotReader {
  import opened Text
  import opened SnapshotAnalysis

  /** snapshots[snapshotId][processId], the dictionary of dictionaries the reader fills. */
  type Snapshots = map<int, map<nat, Record>>

  /** The loop's variables: the dictionary so far and the record being read, if any. */
  datatype Reading = Reading(stored: Snapshots, current: Option<Record>)

  /** Python's int() on a field: optional surrounding whitespace, a sign and decimal digits. */
  function IntField(s: string): Option<int> {
    ParseDecimal(Strip(s))
  }

  /** The second ": "-separated field of the stripped line, as an integer; None where the source raises. */
  function LabelledValue(line: string): Option<int> {
    var parts := Split(Strip(line), ": ");
    if |parts| < 2 then None else IntField(parts[1])
  }

  /** The second ": "-separated field of the stripped line; None where the source raises. */
  function LabelledText(line: string): Option<string> {
    var parts := Split(Strip(line), ": ");
    if |parts| < 2 then None else Some(parts[1])
  }

  /** The id of a header line: the second space-separated word; None where the source raises. */
  function HeaderId(line: string): Option<int> {
    var parts := Split(Strip(line), " ");
    if |parts| < 2 then None else IntField(parts[1])
  }

  /** `snapshots[r.SnapshotId][r.ProcessId] = r`, creating the inner dictionary on first use. */
  function Store(stored: Snapshots, r: Record): (s: Snapshots)
    ensures s.Keys == stored.Keys + {r.snapshotId}
    ensures s[r.snapshotId].Keys == (if r.snapshotId in stored then stored[r.snapshotId].Keys else {}) + {r.processId}
    ensures s[r.snapshotId][r.processId] == r
    ensures forall k, p :: k in stored && p in stored[k] && (k, p) != (r.snapshotId, r.processId) ==>
              p in s[k] && s[k][p] == stored[k][p]
  {
    var inner := if r.snapshotId in stored then stored[r.snapshotId] else map[];
    stored[r.snapshotId := inner[r.processId := r]]
  }

  /** The dictionary once the record being read, if any, is stored. */
  function Flush(acc: Reading): Snapshots {
    match acc.current
    case None => acc.stored
    case Some(r) => Store(acc.stored, r)
  }

  /** A fresh record: ids and an empty message list, no other key yet. */
  function Fresh(processId: nat, snapshotId: int): Record {
    Record(processId, snapshotId, None, None, None, None, None, [])
  }

  const StateLabel: string := "Estado:"
  const LclLabel: string := "Rel\U{F3}gio L\U{F3}gico:"
  const ReqTsLabel: string := "Timestamp de Requisi\U{E7}\U{E3}o:"
  const WaitingLabel: string := "Waiting:"
  const NbrRespsLabel: string := "NbrResps:"
  const MessagesLabel: string := "Mensagens:"

  /** The branch of the line loop a line takes, by the first test it passes. */
  datatype LineKind =
    | HeaderLine | StateLine | LclLine | ReqTsLine | WaitingLine | NbrRespsLine
    | MessagesHeading | MessageLine | OtherLine

  function KindOfLine(line: string): LineKind {
    if Contains(line, "Snapshot") then HeaderLine
    else if Contains(line, StateLabel) then StateLine
    else if Contains(line, LclLabel) then LclLine
    else if Contains(line, ReqTsLabel) then ReqTsLine
    else if Contains(line, WaitingLabel) then WaitingLine
    else if Contains(line, NbrRespsLabel) then NbrRespsLine
    else if Contains(line, MessagesLabel) then MessagesHeading
    else if Contains(line, "respOK") then MessageLine
    else OtherLine
  }

  /** A line inside a record that the source reads without raising. */
  predicate LineReadable(line: string) {
    match KindOfLine(line)
    case StateLine => LabelledValue(line).Some?
    case LclLine => LabelledValue(line).Some?
    case ReqTsLine => LabelledValue(line).Some?
    case NbrRespsLine => LabelledValue(line).Some?
    case WaitingLine => LabelledText(line).Some?
    case _ => true
  }

  /** What a readable line other than a header does to the record being read. */
  function FillRecord(r: Record, line: string): (r': Record)
    requires LineReadable(line)
    ensures r'.processId == r.processId && r'.snapshotId == r.snapshotId
    ensures r'.messages == r.messages + if KindOfLine(line) == MessageLine then [Strip(line)] else []
  {
    match KindOfLine(line)
    case StateLine => r.(state := LabelledValue(line))
    case LclLine => r.(lcl := LabelledValue(line))
    case ReqTsLine => r.(reqTs := LabelledValue(line))
    case WaitingLine => r.(waiting := Some(ParseWaitingList(LabelledText(line).value)))
    case NbrRespsLine => r.(nbrResps := LabelledValue(line))
    case MessageLine => r.(messages := r.messages + [Strip(line)])
    case _ => r
  }

  /**
   * The effect of one line on the loop's variables, by the first test it
   * passes: a header stores the record being read and starts a fresh one;
   * a labelled line or a message line fills in the record being read; the
   * "Mensagens:" heading and any other line change nothing. None where the
   * source raises: a header whose id int() rejects, a labelled or message
   * line before any header, a missing ": " or a value int() rejects.
   */
  function ReadLine(processId: nat, acc: Reading, line: string): Option<Reading> {
    match KindOfLine(line)
    case HeaderLine =>
      (match HeaderId(line)
       case None => None
       case Some(k) => Some(Reading(Flush(acc), Some(Fresh(processId, k)))))
    case MessagesHeading => Some(acc)
    case OtherLine => Some(acc)
    case _ =>
      match acc.current
      case None => None
      case Some(r) => if LineReadable(line) then Some(acc.(current := Some(FillRecord(r, line)))) else None
  }

  /** The loop over `lines` from the given variables; None once a line raises. */
  function ReadLines(processId: nat, acc: Reading, lines: seq<string>): Option<Reading>
    decreases |lines|
  {
    if lines == [] then Some(acc)
    else
      match ReadLine(processId, acc, lines[0])
      case None => None
      case Some(next) => ReadLines(processId, next, lines[1..])
  }

  /** One file: the loop from no current record, then the final store. */
  function ReadFile(processId: nat, stored: Snapshots, lines: seq<string>): Option<Snapshots> {
    match ReadLines(processId, Reading(stored, None), lines)
    case None => None
    case Some(acc) => Some(Flush(acc))
  }

  /**
   * The per-line loop of read_snapshots over the lines of the file of process
   * `processId`, adding to `stored`; None where the source raises.
   */
  method ReadSnapshotFile(processId: nat, stored: Snapshots, lines: seq<string>) returns (r: Option<Snapshots>)
    ensures r == ReadFile(processId, stored, lines)
  {
    var snapshots := stored;
    var snapshotData: Option<Record> := None;
    var i := 0;
    while i < |lines|
      invariant 0 <= i <= |lines|
      invariant ReadLines(processId, Reading(stored, None), lines)
             == ReadLines(processId, Reading(snapshots, snapshotData), lines[i..])
    {
      var line := lines[i];
      ghost var before := Reading(snapshots, snapshotData);
      assert lines[i..][0] == line && lines[i..][1..] == lines[i + 1..];
      if snapshotData.Some? && KindOfLine(line) != HeaderLine {
        ReadLineInBlock(processId, before, line);
      }
      if Contains(line, "Snapshot") {
        assert KindOfLine(line) == HeaderLine;
        var id := HeaderId(line);
        if id.None? {
          return None;
        }
        if snapshotData.Some? {
          snapshots := Store(snapshots, snapshotData.value);
        }
        snapshotData := Some(Fresh(processId, id.value));
      } else if Contains(line, StateLabel) {
        assert KindOfLine(line) == StateLine;
        var v := LabelledValue(line);
        if snapshotData.None? || v.None? {
          return None;
        }
        snapshotData := Some(snapshotData.value.(state := v));
      } else if Contains(line, LclLabel) {
        assert KindOfLine(line) == LclLine;
        var v := LabelledValue(line);
        if snapshotData.None? || v.None? {
          return None;
        }
        snapshotData := Some(snapshotData.value.(lcl := v));
      } else if Contains(line, ReqTsLabel) {
        assert KindOfLine(line) == ReqTsLine;
        var v := LabelledValue(line);
        if snapshotData.None? || v.None? {
          return None;
        }
        snapshotData := Some(snapshotData.value.(reqTs := v));
      } else if Contains(line, WaitingLabel) {
        assert KindOfLine(line) == WaitingLine;
        var t := LabelledText(line);
        if snapshotData.None? || t.None? {
          return None;
        }
        snapshotData := Some(snapshotData.value.(waiting := Some(ParseWaitingList(t.value))));
      } else if Contains(line, NbrRespsLabel) {
        assert KindOfLine(line) == NbrRespsLine;
        var v := LabelledValue(line);
        if snapshotData.None? || v.None? {
          return None;
        }
        snapshotData := Some(snapshotData.value.(nbrResps := v));
      } else if Contains(line, MessagesLabel) {
        assert KindOfLine(line) == MessagesHeading;
      } else if Contains(line, "respOK") {
        assert KindOfLine(line) == MessageLine;
        if snapshotData.None? {
          return None;
        }
        snapshotData := Some(snapshotData.value.(messages := snapshotData.value.messages + [Strip(line)]));
      } else {
        assert KindOfLine(line) == OtherLine;
      }
      assert ReadLine(processId, before, line) == Some(Reading(snapshots, snapshotData));
      i := i + 1;
    }
    r := Some(Flush(Reading(snapshots, snapshotData)));
  }

  // ---------------------------------------------------------------------------
  // What a read stores
  // ---------------------------------------------------------------------------

  /** Every record sits under its own snapshot id and process id. */
  predicate Consistent(s: Snapshots) {
    forall k, p :: k in s && p in s[k] ==> s[k][p].snapshotId == k && s[k][p].processId == p
  }

  /** The snapshot ids under which process `pid` has a record. */
  function IdsOf(s: Snapshots, pid: nat): set<int> {
    set k | k in s && pid in s[k]
  }

  /** The ids of the header lines among `lines`. */
  function HeaderIds(lines: seq<string>): set<int> {
    if lines == [] then {}
    else
      (if Contains(lines[0], "Snapshot") && HeaderId(lines[0]).Some? then {HeaderId(lines[0]).value} else {})
      + HeaderIds(lines[1..])
  }

  /** The id of every header line of `lines` is among HeaderIds(lines). */
  lemma {:induction false} HeaderIdListed(lines: seq<string>, at: nat)
    requires at < |lines| && Contains(lines[at], "Snapshot") && HeaderId(lines[at]).Some?
    ensures HeaderId(lines[at]).value in HeaderIds(lines)
  {
    if at > 0 {
      assert lines[1..][at - 1] == lines[at];
      HeaderIdListed(lines[1..], at - 1);
    }
  }

  /** `m` is a stripped line of `lines` that contains "respOK". */
  predicate MessageFrom(m: string, lines: seq<string>) {
    exists i :: 0 <= i < |lines| && Contains(lines[i], "respOK") && m == Strip(lines[i])
  }

  /** Every message of `r` is a stripped "respOK" line of `lines`. */
  predicate MessagesFrom(r: Record, lines: seq<string>) {
    forall m :: m in r.messages ==> MessageFrom(m, lines)
  }

  /** The record of process `p` under id `k` is in both dictionaries, unchanged. */
  predicate Kept(orig: Snapshots, s: Snapshots, k: int, p: nat) {
    k in orig && p in orig[k] && k in s && p in s[k] && s[k][p] == orig[k][p]
  }

  /**
   * What the loop keeps true while reading `src`, the file of `pid`, into
   * `orig`: records sit under their own ids; the record being read belongs to
   * `pid` under a header id of the file; every stored record is either one of
   * `orig` unchanged or a record of `pid` under a header id whose messages come
   * from the file; and no record of another process is lost or changed.
   */
  predicate Sound(pid: nat, orig: Snapshots, src: seq<string>, acc: Reading) {
    && Consistent(acc.stored)
    && (acc.current.Some? ==>
          && acc.current.value.processId == pid
          && acc.current.value.snapshotId in HeaderIds(src)
          && MessagesFrom(acc.current.value, src))
    && (forall k, p :: k in acc.stored && p in acc.stored[k] ==>
          Kept(orig, acc.stored, k, p) || (p == pid && k in HeaderIds(src) && MessagesFrom(acc.stored[k][p], src)))
    && (forall k, p :: k in orig && p in orig[k] && p != pid ==> Kept(orig, acc.stored, k, p))
  }

  lemma {:induction false} FlushSound(pid: nat, orig: Snapshots, src: seq<string>, acc: Reading)
    requires Sound(pid, orig, src, acc)
    ensures Sound(pid, orig, src, Reading(Flush(acc), None))
  {
    if acc.current.Some? {
      var r := acc.current.value;
      var s := Store(acc.stored, r);
      forall k, p | k in s && p in s[k]
        ensures Kept(orig, s, k, p) || (p == pid && k in HeaderIds(src) && MessagesFrom(s[k][p], src))
      {
        if (k, p) != (r.snapshotId, r.processId) {
          assert k in acc.stored && p in acc.stored[k];
        }
      }
    }
  }

  /** One line of `src`, the one at `at`, keeps the loop sound. */
  lemma {:induction false} ReadLineSound(pid: nat, orig: Snapshots, src: seq<string>, at: nat, acc: Reading)
    requires at < |src| && Sound(pid, orig, src, acc)
    requires ReadLine(pid, acc, src[at]).Some?
    ensures Sound(pid, orig, src, ReadLine(pid, acc, src[at]).value)
  {
    var line := src[at];
    var next := ReadLine(pid, acc, line).value;
    if KindOfLine(line) == HeaderLine {
      FlushSound(pid, orig, src, acc);
      HeaderIdListed(src, at);
    } else if KindOfLine(line) == MessageLine {
      var r := acc.current.value;
      forall m | m in next.current.value.messages ensures MessageFrom(m, src) {
        if m !in r.messages {
          assert m == Strip(src[at]);
        }
      }
    }
  }

  /** The loop over the remaining lines of `src`, a suffix of it, stays sound. */
  lemma {:induction false} ReadLinesSound(pid: nat, orig: Snapshots, src: seq<string>, lines: seq<string>, acc: Reading)
    requires |lines| <= |src| && lines == src[|src| - |lines|..]
    requires Sound(pid, orig, src, acc)
    requires ReadLines(pid, acc, lines).Some?
    ensures Sound(pid, orig, src, ReadLines(pid, acc, lines).value)
    decreases |lines|
  {
    if lines != [] {
      var at := |src| - |lines|;
      assert lines[0] == src[at];
      ReadLineSound(pid, orig, src, at, acc);
      assert lines[1..] == src[|src| - |lines[1..]|..];
      ReadLinesSound(pid, orig, src, lines[1..], ReadLine(pid, acc, lines[0]).value);
    }
  }

  /** Storing a record adds its snapshot id to those of its process. */
  lemma {:induction false} IdsOfStore(s: Snapshots, r: Record)
    ensures IdsOf(Store(s, r), r.processId) == IdsOf(s, r.processId) + {r.snapshotId}
  {
    var t := Store(s, r);
    forall k | k in IdsOf(s, r.processId) ensures k in IdsOf(t, r.processId) {
      if k != r.snapshotId {
        assert r.processId in s[k];
      }
    }
  }

  /** How one line changes the ids `pid` has once the record being read is stored. */
  lemma {:induction false} ReadLineIds(pid: nat, acc: Reading, line: string)
    requires acc.current.Some? ==> acc.current.value.processId == pid
    requires ReadLine(pid, acc, line).Some?
    ensures var next := ReadLine(pid, acc, line).value;
      && (next.current.Some? ==> next.current.value.processId == pid)
      && IdsOf(Flush(next), pid) ==
           IdsOf(Flush(acc), pid)
           + (if Contains(line, "Snapshot") && HeaderId(line).Some? then {HeaderId(line).value} else {})
  {
    var next := ReadLine(pid, acc, line).value;
    if Contains(line, "Snapshot") {
      var k := HeaderId(line).value;
      assert next == Reading(Flush(acc), Some(Fresh(pid, k)));
      IdsOfStore(Flush(acc), Fresh(pid, k));
    } else {
      assert next.stored == acc.stored;
      assert next.current.Some? <==> acc.current.Some?;
      if acc.current.Some? {
        var r, r' := acc.current.value, next.current.value;
        assert r'.snapshotId == r.snapshotId && r'.processId == pid;
        IdsOfStore(acc.stored, r);
        IdsOfStore(acc.stored, r');
      }
    }
  }

  /**
   * The ids under which `pid` ends up with a record are those it had, that
   * of the record being read, and those of the header lines.
   */
  lemma {:induction false} ReadLinesIds(pid: nat, acc: Reading, lines: seq<string>)
    requires acc.current.Some? ==> acc.current.value.processId == pid
    requires ReadLines(pid, acc, lines).Some?
    ensures IdsOf(Flush(ReadLines(pid, acc, lines).value), pid) == IdsOf(Flush(acc), pid) + HeaderIds(lines)
    decreases |lines|
  {
    if lines == [] {
      assert HeaderIds(lines) == {};
    } else {
      var line := lines[0];
      ReadLineIds(pid, acc, line);
      ReadLinesIds(pid, ReadLine(pid, acc, line).value, lines[1..]);
    }
  }

  /**
   * A file read without error leaves every stored record under its own ids,
   * gives `pid` a record for exactly the ids it had and the ids of the header
   * lines, keeps every record of another process, and otherwise only adds or
   * replaces records of `pid` under header ids, whose messages are stripped
   * lines of the file that contain "respOK".
   */
  lemma ReadFileSound(pid: nat, stored: Snapshots, lines: seq<string>)
    requires Consistent(stored)
    requires ReadFile(pid, stored, lines).Some?
    ensures var r := ReadFile(pid, stored, lines).value;
      && Consistent(r)
      && IdsOf(r, pid) == IdsOf(stored, pid) + HeaderIds(lines)
      && (forall k, p :: k in stored && p in stored[k] && p != pid ==> Kept(stored, r, k, p))
      && (forall k, p :: k in r && p in r[k] ==>
            Kept(stored, r, k, p) || (p == pid && k in HeaderIds(lines) && MessagesFrom(r[k][p], lines)))
  {
    var start := Reading(stored, None);
    assert lines == lines[|lines| - |lines|..];
    ReadLinesSound(pid, stored, lines, lines, start);
    var acc := ReadLines(pid, start, lines).value;
    FlushSound(pid, stored, lines, acc);
    ReadLinesIds(pid, start, lines);
  }

  // ---------------------------------------------------------------------------
  // What one block of the file yields
  // ---------------------------------------------------------------------------

  /** The lines after a header, up to the next one: no header, nothing that raises. */
  predicate BlockBody(body: seq<string>) {
    forall i :: 0 <= i < |body| ==> KindOfLine(body[i]) != HeaderLine && LineReadable(body[i])
  }

  /** The last line of `body` of the given kind. */
  function LastOfKind(body: seq<string>, kind: LineKind): Option<string> {
    if body == [] then None
    else if KindOfLine(body[|body| - 1]) == kind then Some(body[|body| - 1])
    else LastOfKind(body[..|body| - 1], kind)
  }

  /** The value of the last labelled line of the given kind; None if there is none. */
  function LastValue(body: seq<string>, kind: LineKind): Option<int> {
    match LastOfKind(body, kind)
    case None => None
    case Some(line) => LabelledValue(line)
  }

  /** The list parsed from the last Waiting line; None if there is none. */
  function LastWaiting(body: seq<string>): Option<seq<bool>> {
    match LastOfKind(body, WaitingLine)
    case None => None
    case Some(line) =>
      match LabelledText(line)
      case None => None
      case Some(t) => Some(ParseWaitingList(t))
  }

  /** The stripped message lines of `body`, in order. */
  function MessageLines(body: seq<string>): seq<string> {
    if body == [] then []
    else MessageLines(body[..|body| - 1])
         + (if KindOfLine(body[|body| - 1]) == MessageLine then [Strip(body[|body| - 1])] else [])
  }

  /**
   * The record a block yields: ids from the process and the header, each
   * field from the last line with its label, and every message line.
   */
  function BlockRecord(pid: nat, k: int, body: seq<string>): Record {
    Record(pid, k, LastValue(body, StateLine), LastValue(body, LclLine), LastValue(body, ReqTsLine),
           LastWaiting(body), LastValue(body, NbrRespsLine), MessageLines(body))
  }

  /** The loop over `a + b` is the loop over `a`, then over `b`. */
  lemma {:induction false} ReadLinesAppend(pid: nat, acc: Reading, a: seq<string>, b: seq<string>)
    ensures ReadLines(pid, acc, a + b) ==
              match ReadLines(pid, acc, a)
              case None => None
              case Some(mid) => ReadLines(pid, mid, b)
    decreases |a|
  {
    if a != [] {
      assert (a + b)[0] == a[0] && (a + b)[1..] == a[1..] + b;
      match ReadLine(pid, acc, a[0])
      case None =>
      case Some(next) => ReadLinesAppend(pid, next, a[1..], b);
    } else {
      assert a + b == b;
    }
  }

  /** The loop over a single line is that line's step. */
  lemma ReadOneLine(pid: nat, acc: Reading, line: string)
    ensures ReadLines(pid, acc, [line]) == ReadLine(pid, acc, line)
  {
    assert [line][1..] == [];
  }

  /** Inside a record, a line other than a header fills the record in, or raises if it is unreadable. */
  lemma ReadLineInBlock(pid: nat, acc: Reading, line: string)
    requires acc.current.Some? && KindOfLine(line) != HeaderLine
    ensures ReadLine(pid, acc, line)
         == if LineReadable(line) then Some(acc.(current := Some(FillRecord(acc.current.value, line)))) else None
  {
  }

  /** The record of a block with one more line is the shorter block's record, filled in by the line. */
  lemma {:induction false} BlockRecordSnoc(pid: nat, k: int, v: seq<string>, line: string)
    requires KindOfLine(line) != HeaderLine && LineReadable(line)
    ensures BlockRecord(pid, k, v + [line]) == FillRecord(BlockRecord(pid, k, v), line)
  {
    var w := v + [line];
    assert w[..|w| - 1] == v && w[|w| - 1] == line;
    var kind := KindOfLine(line);
    assert MessageLines(w) == MessageLines(v) + (if kind == MessageLine then [Strip(line)] else []);
    assert LastOfKind(w, StateLine) == if kind == StateLine then Some(line) else LastOfKind(v, StateLine);
    assert LastOfKind(w, LclLine) == if kind == LclLine then Some(line) else LastOfKind(v, LclLine);
    assert LastOfKind(w, ReqTsLine) == if kind == ReqTsLine then Some(line) else LastOfKind(v, ReqTsLine);
    assert LastOfKind(w, WaitingLine) == if kind == WaitingLine then Some(line) else LastOfKind(v, WaitingLine);
    assert LastOfKind(w, NbrRespsLine) == if kind == NbrRespsLine then Some(line) else LastOfKind(v, NbrRespsLine);
  }

  /**
   * From a fresh record, the lines of a block body fill it in to the
   * block's record; a body with a line that raises ends the read.
   */
  lemma {:induction false} ReadBody(pid: nat, k: int, stored: Snapshots, body: seq<string>)
    requires forall i :: 0 <= i < |body| ==> KindOfLine(body[i]) != HeaderLine
    ensures ReadLines(pid, Reading(stored, Some(Fresh(pid, k))), body)
         == if BlockBody(body) then Some(Reading(stored, Some(BlockRecord(pid, k, body)))) else None
    decreases |body|
  {
    var start := Reading(stored, Some(Fresh(pid, k)));
    if body == [] {
      assert BlockRecord(pid, k, body) == Fresh(pid, k);
    } else {
      var v, line := body[..|body| - 1], body[|body| - 1];
      assert body == v + [line];
      ReadBody(pid, k, stored, v);
      ReadLinesAppend(pid, start, v, [line]);
      if BlockBody(v) {
        var mid := Reading(stored, Some(BlockRecord(pid, k, v)));
        ReadOneLine(pid, mid, line);
        ReadLineInBlock(pid, mid, line);
        assert BlockBody(body) <==> LineReadable(line);
        if LineReadable(line) {
          BlockRecordSnoc(pid, k, v, line);
        }
      } else {
        assert !BlockBody(body) by {
          var i :| 0 <= i < |v| && !(KindOfLine(v[i]) != HeaderLine && LineReadable(v[i]));
          assert body[i] == v[i];
        }
      }
    }
  }

  /**
   * A header line for snapshot `k` followed by a block body: the record
   * read so far is stored, and the block yields a record of `pid` under `k`
   * holding exactly the block's message lines, in order, and the value of
   * the last line of each label.
   */
  lemma {:induction false} ReadBlock(pid: nat, acc: Reading, header: string, k: int, body: seq<string>)
    requires KindOfLine(header) == HeaderLine && HeaderId(header) == Some(k)
    requires forall i :: 0 <= i < |body| ==> KindOfLine(body[i]) != HeaderLine
    ensures ReadLines(pid, acc, [header] + body)
         == if BlockBody(body) then Some(Reading(Flush(acc), Some(BlockRecord(pid, k, body)))) else None
  {
    assert ([header] + body)[0] == header && ([header] + body)[1..] == body;
    ReadBody(pid, k, Flush(acc), body);
  }

  /** A block of the file: a header line with a readable id, then a block body. */
  predicate WellFormedBlock(block: seq<string>) {
    && |block| > 0
    && KindOfLine(block[0]) == HeaderLine && HeaderId(block[0]).Some?
    && BlockBody(block[1..])
  }

  function Concat(blocks: seq<seq<string>>): seq<string> {
    if blocks == [] then [] else blocks[0] + Concat(blocks[1..])
  }

  /** The dictionary after storing the record of each block in turn. */
  function StoreBlocks(stored: Snapshots, pid: nat, blocks: seq<seq<string>>): Snapshots
    requires forall i :: 0 <= i < |blocks| ==> WellFormedBlock(blocks[i])
    decreases |blocks|
  {
    if blocks == [] then stored
    else
      var b := blocks[0];
      assert WellFormedBlock(b);
      StoreBlocks(Store(stored, BlockRecord(pid, HeaderId(b[0]).value, b[1..])), pid, blocks[1..])
  }

  /** A well-formed block is read without error into the record ReadBlock names. */
  lemma ReadWellFormedBlock(pid: nat, acc: Reading, b: seq<string>)
    requires WellFormedBlock(b)
    ensures ReadLines(pid, acc, b) == Some(Reading(Flush(acc), Some(BlockRecord(pid, HeaderId(b[0]).value, b[1..]))))
  {
    assert b == [b[0]] + b[1..];
    ReadBlock(pid, acc, b[0], HeaderId(b[0]).value, b[1..]);
  }

  lemma {:induction false} ReadLinesBlocks(pid: nat, acc: Reading, blocks: seq<seq<string>>)
    requires forall i :: 0 <= i < |blocks| ==> WellFormedBlock(blocks[i])
    ensures ReadLines(pid, acc, Concat(blocks)).Some?
    ensures Flush(ReadLines(pid, acc, Concat(blocks)).value) == StoreBlocks(Flush(acc), pid, blocks)
    decreases |blocks|
  {
    if blocks != [] {
      var b := blocks[0];
      assert WellFormedBlock(b);
      var mid := Reading(Flush(acc), Some(BlockRecord(pid, HeaderId(b[0]).value, b[1..])));
      ReadWellFormedBlock(pid, acc, b);
      ReadLinesAppend(pid, acc, b, Concat(blocks[1..]));
      ReadLinesBlocks(pid, mid, blocks[1..]);
    }
  }

  /**
   * A file made of well-formed blocks is read without error, and each block
   * stores, in file order, the record of `pid` under its header's id whose
   * messages are the block's message lines and whose fields are the values
   * of the block's last labelled lines.
   */
  lemma ReadFileBlocks(pid: nat, stored: Snapshots, blocks: seq<seq<string>>)
    requires forall i :: 0 <= i < |blocks| ==> WellFormedBlock(blocks[i])
    ensures ReadFile(pid, stored, Concat(blocks)) == Some(StoreBlocks(stored, pid, blocks))
  {
    ReadLinesBlocks(pid, Reading(stored, None), blocks);
  }
}
