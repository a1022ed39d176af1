// The three colon-framed wire texts the engine exchanges over its links:
//   reqEntry:<senderId>:<requestTimestamp>
//   respOK:<senderId>:<clockAtSend>
//   TAKE_SNAPSHOT:<senderId>:<snapshotId>
// with the formatter (Go's Sprintf), the field scanners the handlers use
// (Sscanf, parseMessage/getTimestamp, parseMarkerMessage) and the substring
// test by which the event loop decides which handler a text goes to.

module Wire {
  import opened Text

  datatype Kind = ReqEntryKind | RespOkKind | MarkerKind

  /** A message as its sender built it: a kind and two integer fields. */
  datatype Msg =
    | ReqEntry(sender: int, ts: int)
    | RespOk(sender: int, ts: int)
    | Marker(sender: int, snapshotId: int)
  {
    function KindOf(): Kind {
      match this
      case ReqEntry(_, _) => ReqEntryKind
      case RespOk(_, _) => RespOkKind
      case Marker(_, _) => MarkerKind
    }

    /** The second field: a timestamp, or the snapshot id of a marker. */
    function Stamp(): int {
      match this
      case ReqEntry(_, t) => t
      case RespOk(_, t) => t
      case Marker(_, k) => k
    }
  }

  function Tag(k: Kind): (t: string)
    ensures |t| > 0 && ':' !in t
  {
    match k
    case ReqEntryKind => "reqEntry"
    case RespOkKind => "respOK"
    case MarkerKind => "TAKE_SNAPSHOT"
  }

  /**
   * The text `Sprintf("<tag>:%d:%d", sender, stamp)` sends. It splits at ':'
   * into exactly the tag and the two rendered fields.
   */
  function Format(m: Msg): (t: string)
    ensures Split(t, ":") == [Tag(m.KindOf()), IntToString(m.sender), IntToString(m.Stamp())]
  {
    var tag, a, b := Tag(m.KindOf()), IntToString(m.sender), IntToString(m.Stamp());
    IntToStringNoColon(m.sender);
    IntToStringNoColon(m.Stamp());
    SplitThreeFields(tag, a, b);
    tag + ":" + a + ":" + b
  }

  /** Three fields free of ':' joined by ':' split back into the three. */
  lemma {:induction false} SplitThreeFields(tag: string, a: string, b: string)
    requires ':' !in tag && ':' !in a && Split(b, ":") == [b]
    ensures Split(tag + ":" + a + ":" + b, ":") == [tag, a, b]
  {
    assert tag + ":" + a + ":" + b == tag + ":" + (a + ":" + b);
    SplitAtColon(tag, a + ":" + b);
    SplitAtColon(a, b);
  }

  // ---------------------------------------------------------------------------
  // Scanning
  // ---------------------------------------------------------------------------

  /**
   * The two `%d` fields after the first ':'. Each is 0 when it cannot be read,
   * and the second is not read once the first fails: Sscanf stops at the
   * first failure and leaves the remaining variables at their zero value.
   */
  function ScanFields(text: string): (int, int) {
    var parts := Split(text, ":");
    var a := if |parts| >= 2 then ParseDecimal(parts[1]) else None;
    var b := if a.Some? && |parts| >= 3 then ParseDecimal(parts[2]) else None;
    (a.GetOr(0), b.GetOr(0))
  }

  /** `Sscanf(text, "<tag>:%d:%d", &senderId, &senderTs)`. */
  function Scan(text: string, tag: string): (int, int) {
    if Split(text, ":")[0] == tag then ScanFields(text) else (0, 0)
  }

  /**
   * parseMessage: a non-empty kind up to the first ':' and then the two
   * fields, whatever the kind.
   */
  function ParseMessage(text: string): (int, int) {
    if Split(text, ":")[0] != "" then ScanFields(text) else (0, 0)
  }

  function GetTimestamp(text: string): int {
    ParseMessage(text).1
  }

  /**
   * parseMessage as written: its format opens with a C-style scanset verb,
   * which Go's Sscanf rejects, so the scan stops before the first field and
   * both results keep their zero value whatever the text.
   */
  function ParseMessageAsWritten(text: string): (int, int) {
    (0, 0)
  }

  function GetTimestampAsWritten(text: string): int {
    ParseMessageAsWritten(text).1
  }

  /**
   * parseMarkerMessage: fields 1 and 2 of the text split at ':', or (0, 0)
   * when either is not an integer. Fewer than three fields make the source
   * index past the end of the split, which its callers must not do.
   */
  function ParseMarkerMessage(text: string): (int, int)
    requires |Split(text, ":")| >= 3
  {
    var parts := Split(text, ":");
    var a := ParseDecimal(parts[1]);
    var b := ParseDecimal(parts[2]);
    if a.None? || b.None? then (0, 0) else (a.value, b.value)
  }

  /**
   * The event loop's routing of a delivered text: first a text containing
   * "respOK", then one containing "reqEntry", then one containing
   * "TAKE_SNAPSHOT"; anything else is dropped.
   */
  function Classify(text: string): (r: Option<Kind>)
    ensures r.Some? ==> Contains(text, Tag(r.value))
    ensures r.None? <==> !Contains(text, "respOK") && !Contains(text, "reqEntry") && !Contains(text, "TAKE_SNAPSHOT")
    ensures r == Some(ReqEntryKind) ==> !Contains(text, "respOK")
    ensures r == Some(MarkerKind) ==> !Contains(text, "respOK") && !Contains(text, "reqEntry")
  {
    if Contains(text, Tag(RespOkKind)) then Some(RespOkKind)
    else if Contains(text, Tag(ReqEntryKind)) then Some(ReqEntryKind)
    else if Contains(text, Tag(MarkerKind)) then Some(MarkerKind)
    else None
  }

  // ---------------------------------------------------------------------------
  // Round trips
  // ---------------------------------------------------------------------------

  /** A rendered integer holds no ':' and so does not split. */
  lemma {:induction false} IntToStringNoColon(n: int)
    ensures ':' !in IntToString(n)
    ensures Split(IntToString(n), ":") == [IntToString(n)]
  {
    var a := IntToString(n);
    forall i | 0 <= i < |a| ensures a[i] != ':' { }
    assert !Contains(a, ":") by {
      forall i | 0 <= i <= |a| ensures !OccursAt(a, ":", i) {
        if i < |a| { assert a[i..i + 1][0] == a[i]; }
      }
    }
    SplitNoSeparator(a, ":");
  }

  /** The handlers' Sscanf recovers both fields of the text its peer sent. */
  lemma ScanFormat(m: Msg)
    ensures Scan(Format(m), Tag(m.KindOf())) == (m.sender, m.Stamp())
  {
    ParseIntToString(m.sender);
    ParseIntToString(m.Stamp());
  }

  /** parseMessage (and so getTimestamp) recovers both fields of any kind. */
  lemma ParseMessageFormat(m: Msg)
    ensures ParseMessage(Format(m)) == (m.sender, m.Stamp())
    ensures GetTimestamp(Format(m)) == m.Stamp()
  {
    ParseIntToString(m.sender);
    ParseIntToString(m.Stamp());
  }

  /**
   * As written, the clock update on a respOK never sees the stamp its sender
   * put in the text; the intended field parse recovers it.
   */
  lemma GetTimestampAsWrittenDropsStamp(sender: int, ts: int)
    requires ts != 0
    ensures GetTimestampAsWritten(Format(RespOk(sender, ts))) != ts
    ensures GetTimestamp(Format(RespOk(sender, ts))) == ts
  {
    ParseMessageFormat(RespOk(sender, ts));
  }

  /** parseMarkerMessage recovers sender and snapshot id from a marker text. */
  lemma ParseMarkerFormat(sender: int, snapshotId: int)
    ensures |Split(Format(Marker(sender, snapshotId)), ":")| >= 3
    ensures ParseMarkerMessage(Format(Marker(sender, snapshotId))) == (sender, snapshotId)
  {
    ParseIntToString(sender);
    ParseIntToString(snapshotId);
  }

  /** Distinct messages are sent as distinct texts. */
  lemma FormatInjective(m1: Msg, m2: Msg)
    requires Format(m1) == Format(m2)
    ensures m1 == m2
  {
    ParseIntToString(m1.sender);
    ParseIntToString(m2.sender);
    ParseIntToString(m1.Stamp());
    ParseIntToString(m2.Stamp());
  }

  // ---------------------------------------------------------------------------
  // Routing
  // ---------------------------------------------------------------------------

  /** Characters that can follow the tag of a formatted message. */
  predicate IsFieldChar(c: char) {
    IsDigit(c) || c == '-' || c == ':'
  }

  /**
   * A word that starts with a letter and has no ':' occurs in "<tag>:<fields>"
   * only if it occurs in the tag itself.
   */
  lemma {:induction false} NotContainsTagged(tag: string, rest: string, w: string)
    requires |w| > 0 && !IsFieldChar(w[0]) && ':' !in w
    requires forall i :: 0 <= i < |rest| ==> IsFieldChar(rest[i])
    requires !Contains(tag, w)
    ensures !Contains(tag + ":" + rest, w)
  {
    var s := tag + ":" + rest;
    forall i | 0 <= i <= |s| ensures !OccursAt(s, w, i) {
      if i + |w| <= |s| {
        var window := s[i..i + |w|];
        if i > |tag| {
          assert window[0] == rest[i - |tag| - 1];
          assert window[0] != w[0];
        } else if i + |w| > |tag| {
          assert window[|tag| - i] == ':';
          assert w[|tag| - i] != ':';
        } else {
          assert window == tag[i..i + |w|];
          assert !OccursAt(tag, w, i);
        }
      }
    }
  }

  lemma {:induction false} FormatContainsTag(m: Msg)
    ensures Contains(Format(m), Tag(m.KindOf()))
  {
    assert OccursAt(Format(m), Tag(m.KindOf()), 0);
  }

  /** The characters after the tag of a formatted message. */
  lemma {:induction false} FieldCharsAfterTag(m: Msg)
    ensures var rest := IntToString(m.sender) + ":" + IntToString(m.Stamp());
      && Format(m) == Tag(m.KindOf()) + ":" + rest
      && forall i :: 0 <= i < |rest| ==> IsFieldChar(rest[i])
  {
    var a, b := IntToString(m.sender), IntToString(m.Stamp());
    var rest := a + ":" + b;
    forall i | 0 <= i < |rest| ensures IsFieldChar(rest[i]) {
      if i < |a| { assert rest[i] == a[i]; }
      else if i > |a| { assert rest[i] == b[i - |a| - 1]; }
    }
  }

  /** No window of `s` equals `w` because none starts with `w`'s first letter. */
  lemma {:induction false} NotContainsFirstChar(s: string, w: string)
    requires |w| > 0 && forall i :: 0 <= i <= |s| - |w| ==> s[i] != w[0]
    ensures !Contains(s, w)
  {
    forall i | 0 <= i <= |s| ensures !OccursAt(s, w, i) {
      if i + |w| <= |s| {
        assert s[i..i + |w|][0] == s[i];
      }
    }
  }

  lemma {:induction false} ReqEntryTagLacksRespOk()
    ensures !Contains("reqEntry", "respOK")
  {
    var s, w := "reqEntry", "respOK";
    forall i | 0 <= i <= |s| ensures !OccursAt(s, w, i) {
      if i == 0 {
        assert s[0..6][2] == 'q';
      } else if i + |w| <= |s| {
        assert s[i..i + 6][0] != 'r';
      }
    }
  }

  lemma {:induction false} ClassifyReqEntry(sender: int, ts: int)
    ensures Classify(Format(ReqEntry(sender, ts))) == Some(ReqEntryKind)
  {
    var m := ReqEntry(sender, ts);
    FieldCharsAfterTag(m);
    FormatContainsTag(m);
    ReqEntryTagLacksRespOk();
    NotContainsTagged("reqEntry", IntToString(sender) + ":" + IntToString(ts), "respOK");
  }

  /** A marker text names neither of the other two kinds. */
  lemma {:induction false} MarkerLacksOtherTags(sender: int, snapshotId: int)
    ensures !Contains(Format(Marker(sender, snapshotId)), "respOK")
    ensures !Contains(Format(Marker(sender, snapshotId)), "reqEntry")
  {
    var m := Marker(sender, snapshotId);
    var rest := IntToString(sender) + ":" + IntToString(snapshotId);
    FieldCharsAfterTag(m);
    NotContainsFirstChar("TAKE_SNAPSHOT", "respOK");
    NotContainsTagged("TAKE_SNAPSHOT", rest, "respOK");
    NotContainsFirstChar("TAKE_SNAPSHOT", "reqEntry");
    NotContainsTagged("TAKE_SNAPSHOT", rest, "reqEntry");
  }

  lemma {:induction false} ClassifyMarker(sender: int, snapshotId: int)
    ensures Classify(Format(Marker(sender, snapshotId))) == Some(MarkerKind)
  {
    MarkerLacksOtherTags(sender, snapshotId);
    FormatContainsTag(Marker(sender, snapshotId));
  }

  /** The event loop hands every formatted message to the handler of its kind. */
  lemma {:induction false} ClassifyFormat(m: Msg)
    ensures Classify(Format(m)) == Some(m.KindOf())
  {
    match m
    case RespOk(_, _) => FormatContainsTag(m);
    case ReqEntry(s, t) => ClassifyReqEntry(s, t);
    case Marker(s, k) => ClassifyMarker(s, k);
  }

  /** A text that names none of the three kinds is dropped. */
  lemma {:induction false} ClassifyGarbage()
    ensures Classify("garbage") == None
  {
    NotContainsFirstChar("garbage", "respOK");
    NotContainsFirstChar("garbage", "reqEntry");
    NotContainsFirstChar("garbage", "TAKE_SNAPSHOT");
  }
}
