// The offline snapshot checker: the record each process wrote for one
// snapshot, the six invariants checked over the records of one snapshot, and
// the parser of the Waiting line.
//
// The records of one snapshot are the values of a dictionary keyed by process
// id, taken in the dictionary's iteration order. A check that reads a key a
// record lacks raises in the source; here such inputs are excluded by the
// check's precondition. States are numbered as the engine writes them:
// 0 = not interested, 1 = wants the critical section, 2 = inside it.

module SnapshotAnalysis {
  import opened Text

  /** The number of processes the checker assumes. */
  const N: int := 3

  /**
   * One process's record of one snapshot. Only the process id, the snapshot
   * id and the message list are always present; the other keys appear once
   * their line has been read.
   */
  datatype Record = Record(
    processId: nat,
    snapshotId: int,
    state: Option<int>,
    lcl: Option<int>,
    reqTs: Option<int>,
    waiting: Option<seq<bool>>,
    nbrResps: Option<int>,
    messages: seq<string>)

  predicate HasStates(rs: seq<Record>) {
    forall i :: 0 <= i < |rs| ==> rs[i].state.Some?
  }

  predicate HasWaiting(rs: seq<Record>) {
    forall i :: 0 <= i < |rs| ==> rs[i].waiting.Some?
  }

  /** Record `i` is in state `s`. */
  predicate InState(rs: seq<Record>, i: int, s: int)
    requires HasStates(rs) && 0 <= i < |rs|
  {
    rs[i].state.value == s
  }

  // ---------------------------------------------------------------------------
  // Invariant 1: at most one process in the critical section
  // ---------------------------------------------------------------------------

  /** The sum over records k.. of 1 for each record in state 2. */
  function CountInMX(rs: seq<Record>, k: nat): nat
    requires HasStates(rs) && k <= |rs|
    decreases |rs| - k
  {
    if k == |rs| then 0 else (if rs[k].state.value == 2 then 1 else 0) + CountInMX(rs, k + 1)
  }

  predicate CheckInvariant1(rs: seq<Record>)
    requires HasStates(rs)
  {
    CountInMX(rs, 0) <= 1
  }

  lemma {:induction false} CountInMXZero(rs: seq<Record>, k: nat)
    requires HasStates(rs) && k <= |rs|
    ensures CountInMX(rs, k) == 0 <==> forall i :: k <= i < |rs| ==> !InState(rs, i, 2)
    decreases |rs| - k
  {
    if k < |rs| {
      CountInMXZero(rs, k + 1);
      assert CountInMX(rs, k) == (if InState(rs, k, 2) then 1 else 0) + CountInMX(rs, k + 1);
      if CountInMX(rs, k) == 0 {
        forall i | k <= i < |rs| ensures !InState(rs, i, 2) {
          if i > k { assert k + 1 <= i; }
        }
      }
    }
  }

  lemma {:induction false} CountInMXAtMostOne(rs: seq<Record>, k: nat)
    requires HasStates(rs) && k <= |rs|
    ensures CountInMX(rs, k) <= 1 <==>
              forall i, j :: k <= i < j < |rs| && InState(rs, i, 2) ==> !InState(rs, j, 2)
    decreases |rs| - k
  {
    if k < |rs| {
      CountInMXAtMostOne(rs, k + 1);
      CountInMXZero(rs, k + 1);
      assert CountInMX(rs, k) == (if InState(rs, k, 2) then 1 else 0) + CountInMX(rs, k + 1);
      if CountInMX(rs, k) <= 1 {
        forall i, j | k <= i < j < |rs| && InState(rs, i, 2) ensures !InState(rs, j, 2) {
          if i > k { assert k + 1 <= i; }
        }
      }
    }
  }

  /** Invariant 1 holds iff no two records are both in state 2. */
  lemma Invariant1Holds(rs: seq<Record>)
    requires HasStates(rs)
    ensures CheckInvariant1(rs) <==>
              forall i, j :: 0 <= i < j < |rs| && InState(rs, i, 2) ==> !InState(rs, j, 2)
  {
    CountInMXAtMostOne(rs, 0);
  }

  // ---------------------------------------------------------------------------
  // Invariant 2: with every process idle, no deferral and no message in transit
  // ---------------------------------------------------------------------------

  predicate AllNoMX(rs: seq<Record>)
    requires HasStates(rs)
  {
    forall i :: 0 <= i < |rs| ==> InState(rs, i, 0)
  }

  /** The loop over records k..: none has a true Waiting entry or a message. */
  predicate QuietFrom(rs: seq<Record>, k: nat)
    requires HasWaiting(rs) && k <= |rs|
    decreases |rs| - k
  {
    k == |rs| || (true !in rs[k].waiting.value && rs[k].messages == [] && QuietFrom(rs, k + 1))
  }

  predicate CheckInvariant2(rs: seq<Record>)
    requires HasStates(rs) && (AllNoMX(rs) ==> HasWaiting(rs))
  {
    if AllNoMX(rs) then QuietFrom(rs, 0) else true
  }

  lemma {:induction false} QuietFromAll(rs: seq<Record>, k: nat)
    requires HasWaiting(rs) && k <= |rs|
    ensures QuietFrom(rs, k) <==>
              forall i :: k <= i < |rs| ==> true !in rs[i].waiting.value && rs[i].messages == []
    decreases |rs| - k
  {
    if k < |rs| {
      QuietFromAll(rs, k + 1);
    }
  }

  /**
   * Invariant 2 holds iff some record is not idle, or no record has a true
   * Waiting entry or a recorded message.
   */
  lemma Invariant2Holds(rs: seq<Record>)
    requires HasStates(rs) && (AllNoMX(rs) ==> HasWaiting(rs))
    ensures CheckInvariant2(rs) <==>
              (exists i :: 0 <= i < |rs| && !InState(rs, i, 0))
              || (forall i :: 0 <= i < |rs| ==> true !in rs[i].waiting.value && rs[i].messages == [])
  {
    if AllNoMX(rs) {
      QuietFromAll(rs, 0);
    }
  }

  // ---------------------------------------------------------------------------
  // Invariant 3: a process that defers someone wants or holds the resource
  // ---------------------------------------------------------------------------

  /** The record violates invariant 3: it defers someone while idle. */
  predicate DefersWhileIdle(rs: seq<Record>, i: int)
    requires HasStates(rs) && HasWaiting(rs) && 0 <= i < |rs|
  {
    true in rs[i].waiting.value && !InState(rs, i, 1) && !InState(rs, i, 2)
  }

  /** The loop over records k.., returning false at the first violation. */
  predicate Invariant3From(rs: seq<Record>, k: nat)
    requires HasStates(rs) && HasWaiting(rs) && k <= |rs|
    decreases |rs| - k
  {
    k == |rs| || (
      var s := rs[k].state.value;
      (true in rs[k].waiting.value ==> s == 1 || s == 2) && Invariant3From(rs, k + 1))
  }

  predicate CheckInvariant3(rs: seq<Record>)
    requires HasStates(rs) && HasWaiting(rs)
  {
    Invariant3From(rs, 0)
  }

  lemma {:induction false} Invariant3FromNone(rs: seq<Record>, k: nat)
    requires HasStates(rs) && HasWaiting(rs) && k <= |rs|
    ensures !Invariant3From(rs, k) <==> exists i :: k <= i < |rs| && DefersWhileIdle(rs, i)
    decreases |rs| - k
  {
    if k < |rs| {
      Invariant3FromNone(rs, k + 1);
      if !Invariant3From(rs, k) && !DefersWhileIdle(rs, k) {
        var i :| k + 1 <= i < |rs| && DefersWhileIdle(rs, i);
      }
    }
  }

  /** Invariant 3 fails iff some record defers a process while in state 0 (or any state but 1 and 2). */
  lemma Invariant3Fails(rs: seq<Record>)
    requires HasStates(rs) && HasWaiting(rs)
    ensures !CheckInvariant3(rs) <==> exists i :: 0 <= i < |rs| && DefersWhileIdle(rs, i)
  {
    Invariant3FromNone(rs, 0);
  }

  // ---------------------------------------------------------------------------
  // Invariant 4: a waiting process accounts for N - 1 answers
  // ---------------------------------------------------------------------------

  /** Record `i` is another process whose Waiting flags process `pid`. */
  predicate FlagsFor(rs: seq<Record>, i: int, pid: nat)
    requires 0 <= i < |rs| && (rs[i].processId != pid ==> rs[i].waiting.Some?)
  {
    rs[i].processId != pid && pid < |rs[i].waiting.value| && rs[i].waiting.value[pid]
  }

  predicate OthersHaveWaiting(rs: seq<Record>, pid: nat) {
    forall i :: 0 <= i < |rs| && rs[i].processId != pid ==> rs[i].waiting.Some?
  }

  /** The inner loop's counter over records k..: other records that flag `pid`. */
  function CountFlagsFor(rs: seq<Record>, pid: nat, k: nat): nat
    requires OthersHaveWaiting(rs, pid) && k <= |rs|
    decreases |rs| - k
  {
    if k == |rs| then 0 else (if FlagsFor(rs, k, pid) then 1 else 0) + CountFlagsFor(rs, pid, k + 1)
  }

  /** The records from k on that flag `pid`. */
  function FlaggersFrom(rs: seq<Record>, pid: nat, k: nat): set<int>
    requires OthersHaveWaiting(rs, pid)
  {
    set i | k <= i < |rs| && FlagsFor(rs, i, pid)
  }

  lemma {:induction false} CountFlagsForIsSize(rs: seq<Record>, pid: nat, k: nat)
    requires OthersHaveWaiting(rs, pid) && k <= |rs|
    ensures CountFlagsFor(rs, pid, k) == |FlaggersFrom(rs, pid, k)|
    decreases |rs| - k
  {
    if k == |rs| {
      assert FlaggersFrom(rs, pid, k) == {};
    } else {
      CountFlagsForIsSize(rs, pid, k + 1);
      var later := FlaggersFrom(rs, pid, k + 1);
      if FlagsFor(rs, k, pid) {
        assert FlaggersFrom(rs, pid, k) == later + {k};
      } else {
        assert FlaggersFrom(rs, pid, k) == later;
      }
    }
  }

  predicate Invariant4Readable(rs: seq<Record>) {
    && HasStates(rs)
    && forall i :: 0 <= i < |rs| && InState(rs, i, 1) ==> OthersHaveWaiting(rs, rs[i].processId)
  }

  /** Responses received, messages in transit and deferrals, as the check adds them up for record `i`. */
  function Accounted(rs: seq<Record>, i: int): int
    requires Invariant4Readable(rs) && 0 <= i < |rs| && InState(rs, i, 1)
  {
    rs[i].nbrResps.GetOr(0) + |rs[i].messages| + CountFlagsFor(rs, rs[i].processId, 0)
  }

  /** The outer loop over records k.., returning false at the first record that does not add up. */
  predicate Invariant4From(rs: seq<Record>, k: nat)
    requires Invariant4Readable(rs) && k <= |rs|
    decreases |rs| - k
  {
    k == |rs| || ((InState(rs, k, 1) ==> Accounted(rs, k) == N - 1) && Invariant4From(rs, k + 1))
  }

  predicate CheckInvariant4(rs: seq<Record>)
    requires Invariant4Readable(rs)
  {
    Invariant4From(rs, 0)
  }

  lemma {:induction false} Invariant4FromAll(rs: seq<Record>, k: nat)
    requires Invariant4Readable(rs) && k <= |rs|
    ensures Invariant4From(rs, k) <==>
              forall i :: k <= i < |rs| && InState(rs, i, 1) ==> Accounted(rs, i) == N - 1
    decreases |rs| - k
  {
    if k < |rs| {
      Invariant4FromAll(rs, k + 1);
    }
  }

  /**
   * Invariant 4 holds iff every record in state 1 has NbrResps (0 when
   * absent), plus its recorded messages, plus the number of other records
   * whose Waiting flags it, equal to N - 1.
   */
  lemma Invariant4Holds(rs: seq<Record>)
    requires Invariant4Readable(rs)
    ensures CheckInvariant4(rs) <==>
              forall i :: 0 <= i < |rs| && InState(rs, i, 1) ==>
                rs[i].nbrResps.GetOr(0) + |rs[i].messages| + |FlaggersFrom(rs, rs[i].processId, 0)| == N - 1
  {
    Invariant4FromAll(rs, 0);
    forall i | 0 <= i < |rs| && InState(rs, i, 1)
      ensures Accounted(rs, i) == rs[i].nbrResps.GetOr(0) + |rs[i].messages| + |FlaggersFrom(rs, rs[i].processId, 0)|
    {
      CountFlagsForIsSize(rs, rs[i].processId, 0);
    }
  }

  // ---------------------------------------------------------------------------
  // Invariant 5: nobody defers the process in the critical section
  // ---------------------------------------------------------------------------

  /** The check can index the Waiting of every other record at the id of every record in state 2. */
  predicate Invariant5Readable(rs: seq<Record>) {
    && HasStates(rs)
    && forall i, j :: 0 <= i < |rs| && 0 <= j < |rs| && InState(rs, i, 2) && rs[i].processId != rs[j].processId ==>
         rs[j].waiting.Some? && rs[i].processId < |rs[j].waiting.value|
  }

  /** Record `j` is another process that defers the process of record `i`. */
  predicate FlaggedBy(rs: seq<Record>, i: int, j: int)
    requires Invariant5Readable(rs) && 0 <= i < |rs| && 0 <= j < |rs| && InState(rs, i, 2)
  {
    rs[i].processId != rs[j].processId && rs[j].waiting.value[rs[i].processId]
  }

  /** The inner loop over records k..: none defers the process of record `i`. */
  predicate NotFlaggedFrom(rs: seq<Record>, i: int, k: nat)
    requires Invariant5Readable(rs) && 0 <= i < |rs| && InState(rs, i, 2) && k <= |rs|
    decreases |rs| - k
  {
    k == |rs| || (!FlaggedBy(rs, i, k) && NotFlaggedFrom(rs, i, k + 1))
  }

  /** The outer loop over records k.. in state 2. */
  predicate Invariant5From(rs: seq<Record>, k: nat)
    requires Invariant5Readable(rs) && k <= |rs|
    decreases |rs| - k
  {
    k == |rs| || ((InState(rs, k, 2) ==> NotFlaggedFrom(rs, k, 0)) && Invariant5From(rs, k + 1))
  }

  predicate CheckInvariant5(rs: seq<Record>)
    requires Invariant5Readable(rs)
  {
    Invariant5From(rs, 0)
  }

  lemma {:induction false} NotFlaggedFromAll(rs: seq<Record>, i: int, k: nat)
    requires Invariant5Readable(rs) && 0 <= i < |rs| && InState(rs, i, 2) && k <= |rs|
    ensures NotFlaggedFrom(rs, i, k) <==> forall j :: k <= j < |rs| ==> !FlaggedBy(rs, i, j)
    decreases |rs| - k
  {
    if k < |rs| {
      NotFlaggedFromAll(rs, i, k + 1);
    }
  }

  lemma {:induction false} Invariant5FromAll(rs: seq<Record>, k: nat)
    requires Invariant5Readable(rs) && k <= |rs|
    ensures Invariant5From(rs, k) <==>
              forall i, j :: k <= i < |rs| && 0 <= j < |rs| && InState(rs, i, 2) ==> !FlaggedBy(rs, i, j)
    decreases |rs| - k
  {
    if k < |rs| {
      Invariant5FromAll(rs, k + 1);
      if InState(rs, k, 2) {
        NotFlaggedFromAll(rs, k, 0);
      }
    }
  }

  /** Invariant 5 holds iff no record flags the id of a record in state 2 as deferred. */
  lemma Invariant5Holds(rs: seq<Record>)
    requires Invariant5Readable(rs)
    ensures CheckInvariant5(rs) <==>
              forall i, j :: 0 <= i < |rs| && 0 <= j < |rs| && InState(rs, i, 2) && rs[i].processId != rs[j].processId ==>
                !rs[j].waiting.value[rs[i].processId]
  {
    Invariant5FromAll(rs, 0);
    if !CheckInvariant5(rs) {
      var i, j :| 0 <= i < |rs| && 0 <= j < |rs| && InState(rs, i, 2) && FlaggedBy(rs, i, j);
      assert rs[i].processId != rs[j].processId && rs[j].waiting.value[rs[i].processId];
    } else {
      forall i, j | 0 <= i < |rs| && 0 <= j < |rs| && InState(rs, i, 2) && rs[i].processId != rs[j].processId
        ensures !rs[j].waiting.value[rs[i].processId]
      {
        assert !FlaggedBy(rs, i, j);
      }
    }
  }

  // ---------------------------------------------------------------------------
  // Invariant 6: a waiting request is younger than every idle process's last one
  // ---------------------------------------------------------------------------

  predicate Invariant6Readable(rs: seq<Record>) {
    && HasStates(rs)
    && forall i, j :: 0 <= i < |rs| && 0 <= j < |rs| && InState(rs, i, 1) && InState(rs, j, 0) ==>
         rs[i].reqTs.Some? && rs[j].reqTs.Some?
  }

  /** Record `j` is idle with a request timestamp not below that of waiting record `i`. */
  predicate IdleNotOlder(rs: seq<Record>, i: int, j: int)
    requires Invariant6Readable(rs) && 0 <= i < |rs| && 0 <= j < |rs| && InState(rs, i, 1)
  {
    InState(rs, j, 0) && rs[j].reqTs.value >= rs[i].reqTs.value
  }

  /** The inner loop over records k.. against waiting record `i`. */
  predicate AllIdleOlderFrom(rs: seq<Record>, i: int, k: nat)
    requires Invariant6Readable(rs) && 0 <= i < |rs| && InState(rs, i, 1) && k <= |rs|
    decreases |rs| - k
  {
    k == |rs| || (!IdleNotOlder(rs, i, k) && AllIdleOlderFrom(rs, i, k + 1))
  }

  predicate Invariant6From(rs: seq<Record>, k: nat)
    requires Invariant6Readable(rs) && k <= |rs|
    decreases |rs| - k
  {
    k == |rs| || ((InState(rs, k, 1) ==> AllIdleOlderFrom(rs, k, 0)) && Invariant6From(rs, k + 1))
  }

  predicate CheckInvariant6(rs: seq<Record>)
    requires Invariant6Readable(rs)
  {
    Invariant6From(rs, 0)
  }

  lemma {:induction false} AllIdleOlderFromAll(rs: seq<Record>, i: int, k: nat)
    requires Invariant6Readable(rs) && 0 <= i < |rs| && InState(rs, i, 1) && k <= |rs|
    ensures AllIdleOlderFrom(rs, i, k) <==> forall j :: k <= j < |rs| ==> !IdleNotOlder(rs, i, j)
    decreases |rs| - k
  {
    if k < |rs| {
      AllIdleOlderFromAll(rs, i, k + 1);
    }
  }

  lemma {:induction false} Invariant6FromAll(rs: seq<Record>, k: nat)
    requires Invariant6Readable(rs) && k <= |rs|
    ensures Invariant6From(rs, k) <==>
              forall i, j :: k <= i < |rs| && 0 <= j < |rs| && InState(rs, i, 1) ==> !IdleNotOlder(rs, i, j)
    decreases |rs| - k
  {
    if k < |rs| {
      Invariant6FromAll(rs, k + 1);
      if InState(rs, k, 1) {
        AllIdleOlderFromAll(rs, k, 0);
      }
    }
  }

  /** Invariant 6 holds iff every waiting record's ReqTs exceeds every idle record's ReqTs. */
  lemma Invariant6Holds(rs: seq<Record>)
    requires Invariant6Readable(rs)
    ensures CheckInvariant6(rs) <==>
              forall i, j :: 0 <= i < |rs| && 0 <= j < |rs| && InState(rs, i, 1) && InState(rs, j, 0) ==>
                rs[j].reqTs.value < rs[i].reqTs.value
  {
    Invariant6FromAll(rs, 0);
    if !CheckInvariant6(rs) {
      var i, j :| 0 <= i < |rs| && 0 <= j < |rs| && InState(rs, i, 1) && IdleNotOlder(rs, i, j);
      assert InState(rs, j, 0) && rs[j].reqTs.value >= rs[i].reqTs.value;
    } else {
      forall i, j | 0 <= i < |rs| && 0 <= j < |rs| && InState(rs, i, 1) && InState(rs, j, 0)
        ensures rs[j].reqTs.value < rs[i].reqTs.value
      {
        assert !IdleNotOlder(rs, i, j);
      }
    }
  }

  // ---------------------------------------------------------------------------
  // The Waiting line
  // ---------------------------------------------------------------------------

  /** A character of a regular-expression word (ASCII letters, digits, '_'). */
  predicate IsWordChar(c: char) {
    'a' <= c <= 'z' || 'A' <= c <= 'Z' || IsDigit(c) || c == '_'
  }

  /** `w` occurs at `i` as a whole word: `\b<w>\b`. */
  predicate WordAt(s: string, w: string, i: nat) {
    && OccursAt(s, w, i)
    && (i == 0 || !IsWordChar(s[i - 1]))
    && (i + |w| == |s| || !IsWordChar(s[i + |w|]))
  }

  /**
   * `re.findall(r'\btrue\b|\bfalse\b', s[i..])` mapped to booleans: the
   * matches are found left to right without overlap, "true" tried first.
   */
  function BoolWords(s: string, i: nat): seq<bool>
    requires i <= |s|
    decreases |s| - i
  {
    if i == |s| then []
    else if WordAt(s, "true", i) then [true] + BoolWords(s, i + 4)
    else if WordAt(s, "false", i) then [false] + BoolWords(s, i + 5)
    else BoolWords(s, i + 1)
  }

  /** parse_waiting_list */
  function ParseWaitingList(text: string): seq<bool> {
    BoolWords(StripChars(text, {'[', ']'}), 0)
  }

  function BoolName(b: bool): (s: string)
    ensures |s| > 0 && IsWordChar(s[0]) && IsWordChar(s[|s| - 1])
  {
    if b then "true" else "false"
  }

  /** The elements of a bool slice separated by single spaces, as Go's `%v` prints them. */
  function JoinBools(w: seq<bool>): string {
    if w == [] then ""
    else if |w| == 1 then BoolName(w[0])
    else BoolName(w[0]) + " " + JoinBools(w[1..])
  }

  /** Go's `%v` rendering of a bool slice, as the engine writes the Waiting line. */
  function FormatBools(w: seq<bool>): string {
    "[" + JoinBools(w) + "]"
  }

  lemma {:induction false} JoinBoolsEnds(w: seq<bool>)
    ensures |JoinBools(w)| == 0 <==> w == []
    ensures w != [] ==> IsWordChar(JoinBools(w)[0]) && IsWordChar(JoinBools(w)[|JoinBools(w)| - 1])
  {
    if |w| > 1 {
      JoinBoolsEnds(w[1..]);
    }
  }

  /** Stripping the brackets leaves the joined elements. */
  lemma {:induction false} StripBrackets(w: seq<bool>)
    ensures StripChars(FormatBools(w), {'[', ']'}) == JoinBools(w)
  {
    var j, cs := JoinBools(w), {'[', ']'};
    JoinBoolsEnds(w);
    var s := FormatBools(w);
    assert s[0] == '[' && s[1..] == j + "]";
    assert StripChars(s, cs) == StripChars(j + "]", cs);
    if j == [] {
      assert StripChars(j + "]", cs) == StripChars([], cs);
    } else {
      assert (j + "]")[0] == j[0] && j[0] !in cs;
      assert (j + "]")[..|j|] == j;
      assert StripChars(j + "]", cs) == StripChars(j, cs);
      assert j[|j| - 1] !in cs;
    }
  }

  /** A whole word "true" or "false" at `i` is read as its boolean. */
  lemma {:induction false} BoolWordAt(s: string, i: nat, b: bool)
    requires WordAt(s, BoolName(b), i)
    ensures BoolWords(s, i) == [b] + BoolWords(s, i + |BoolName(b)|)
  {
    if !b {
      assert s[i] == s[i..i + 5][0] == 'f';
      assert i + 4 <= |s| ==> s[i..i + 4][0] == s[i];
    }
  }

  /** A space is skipped. */
  lemma {:induction false} BoolWordsSpace(s: string, i: nat)
    requires i < |s| && s[i] == ' '
    ensures BoolWords(s, i) == BoolWords(s, i + 1)
  {
    assert !OccursAt(s, "true", i) by { assert i + 4 > |s| || s[i..i + 4][0] == ' '; }
    assert !OccursAt(s, "false", i) by { assert i + 5 > |s| || s[i..i + 5][0] == ' '; }
  }

  /** A boolean's name between a non-word prefix and a space (or the end) is a whole word. */
  lemma {:induction false} NameIsWord(p: string, b: bool, rest: string)
    requires p == [] || !IsWordChar(p[|p| - 1])
    requires rest == [] || rest[0] == ' '
    ensures WordAt(p + BoolName(b) + rest, BoolName(b), |p|)
  {
    var s, name := p + BoolName(b) + rest, BoolName(b);
    assert s[|p|..|p| + |name|] == name;
    if p != [] {
      assert s[|p| - 1] == p[|p| - 1];
    }
    if rest != [] {
      assert s[|p| + |name|] == rest[0];
    }
  }

  /** A leading name followed by a space yields its boolean, then the words after the space. */
  lemma {:induction false} BoolWordsCons(p: string, b: bool, tail: string)
    requires p == [] || !IsWordChar(p[|p| - 1])
    ensures var q := p + BoolName(b) + " ";
      BoolWords(q + tail, |p|) == [b] + BoolWords(q + tail, |q|)
  {
    var name := BoolName(b);
    var q := p + name + " ";
    var s := p + name + (" " + tail);
    assert s == q + tail;
    NameIsWord(p, b, " " + tail);
    BoolWordAt(s, |p|, b);
    assert s[|p| + |name|] == ' ';
    BoolWordsSpace(s, |p| + |name|);
  }

  /** A trailing name yields just its boolean. */
  lemma {:induction false} BoolWordsLast(p: string, b: bool)
    requires p == [] || !IsWordChar(p[|p| - 1])
    ensures BoolWords(p + BoolName(b), |p|) == [b]
  {
    var s := p + BoolName(b);
    assert s == p + BoolName(b) + [];
    NameIsWord(p, b, []);
    BoolWordAt(s, |p|, b);
  }

  lemma {:induction false} BoolWordsShort(p: string, w: seq<bool>)
    requires p == [] || !IsWordChar(p[|p| - 1])
    requires |w| <= 1
    ensures BoolWords(p + JoinBools(w), |p|) == w
  {
    if w == [] {
      assert p + JoinBools(w) == p;
    } else {
      assert p + JoinBools(w) == p + BoolName(w[0]);
      BoolWordsLast(p, w[0]);
    }
  }

  /** The words of the joined elements, read from after any non-word prefix `p`. */
  lemma {:induction false} BoolWordsJoin(p: string, w: seq<bool>)
    requires p == [] || !IsWordChar(p[|p| - 1])
    ensures BoolWords(p + JoinBools(w), |p|) == w
    decreases |w|
  {
    if |w| <= 1 {
      BoolWordsShort(p, w);
    } else {
      var q := p + BoolName(w[0]) + " ";
      var tail := JoinBools(w[1..]);
      assert p + JoinBools(w) == q + tail;
      BoolWordsCons(p, w[0], tail);
      BoolWordsJoin(q, w[1..]);
      assert [w[0]] + w[1..] == w;
    }
  }

  /** The checker reads back the Waiting vector the engine printed. */
  lemma ParseWaitingListFormat(w: seq<bool>)
    ensures ParseWaitingList(FormatBools(w)) == w
  {
    StripBrackets(w);
    BoolWordsJoin([], w);
    assert [] + JoinBools(w) == JoinBools(w);
  }
}
