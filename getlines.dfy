/** The index scanner and the header helpers of src/getlines.c. */
module GetLines {
  import opened Text
  import opened TsvIo
  import opened IndexFormat
  import opened ValueDht

  /** sizeof(label) and sizeof(posn) in scan_index_file. */
  const LABEL_SIZE: nat := 1024
  const POSN_SIZE: nat := 64

  /** The first byte at or after `i` that is not a decimal digit. */
  function DigitEnd(s: Bytes, i: nat): (e: nat)
    requires i <= |s|
    ensures i <= e <= |s| && (e < |s| ==> !IsDigit(s[e]))
    decreases |s| - i
  {
    if i == |s| || !IsDigit(s[i]) then i else DigitEnd(s, i + 1)
  }

  lemma {:induction false} DigitEndSpan(s: Bytes, i: nat)
    requires i <= |s|
    ensures AllDigits(s[i..DigitEnd(s, i)])
    decreases |s| - i
  {
    if !(i == |s| || !IsDigit(s[i])) {
      DigitEndSpan(s, i + 1);
      assert s[i..DigitEnd(s, i)] == [s[i]] + s[i + 1..DigitEnd(s, i)];
    }
  }

  /** A digit run that stops at `e` ends at `e`. */
  lemma {:induction false} DigitEndIs(s: Bytes, i: nat, e: nat)
    requires i <= e <= |s|
    requires forall k :: i <= k < e ==> IsDigit(s[k])
    requires e < |s| ==> !IsDigit(s[e])
    ensures DigitEnd(s, i) == e
    decreases e - i
  {
    if i < e {
      DigitEndIs(s, i + 1, e);
    }
  }

  /** Where the offset that starts at `i` ends: after the leading digits, but
      never more than sizeof(posn) - 2 of them. */
  function OffsetEnd(s: Bytes, i: nat): (m: nat)
    requires i <= |s|
    ensures i <= m <= |s| && m <= i + POSN_SIZE - 2
    ensures m < i + POSN_SIZE - 2 && m < |s| ==> !IsDigit(s[m])
  {
    var e := DigitEnd(s, i);
    if e < i + POSN_SIZE - 2 then e else i + POSN_SIZE - 2
  }

  lemma OffsetEndSpan(s: Bytes, i: nat)
    requires i <= |s|
    ensures AllDigits(s[i..OffsetEnd(s, i)])
  {
    DigitEndSpan(s, i);
    var e, m := DigitEnd(s, i), OffsetEnd(s, i);
    assert forall k :: 0 <= k < m - i ==> s[i..m][k] == s[i..e][k];
  }

  /** What one pass of the outer loop of scan_index_file makes of the record
      whose first byte is at `i`: an error, the last record (EOF after its
      offset), or a record and the position after its NL. */
  datatype Parsed = Bad(st: Status) | Last(rec: Record) | Next(rec: Record, next: nat)

  /** A record is a label (its first byte taken whatever it is, then bytes up
      to a TAB or NL), a TAB, and decimal digits up to a NL or EOF. */
  function ParseRecord(s: Bytes, i: nat): (p: Parsed)
    requires i < |s|
    ensures p.Next? ==> i < p.next <= |s|
  {
    var j := FieldEnd(s, i + 1);
    if j - i > LABEL_SIZE - 1 then Bad(LabelTooLong)
    else if j == |s| then Bad(IncompleteLastLine)
    else if s[j] == NL then Bad(NoIndex)
    else
      var m := OffsetEnd(s, j + 1);
      if m < |s| && s[m] != NL then
        Bad(if m == j + POSN_SIZE - 1 then IndexTooLong else NonNumericInIndex)
      else
        OffsetEndSpan(s, j + 1);
        var rec := Record(s[i..j], DigitsValue(s[j + 1..m]));
        if m == |s| then Last(rec) else Next(rec, m + 1)
  }

  /** What scan_index_file reads from position `i` of the index stream: the
      label→offset updates it makes, and the status it returns. */
  function Scan(s: Bytes, i: nat): Outcome
    requires i <= |s|
    decreases |s| - i
  {
    if i == |s| then Outcome([], OK)
    else match ParseRecord(s, i)
      case Bad(st) => Outcome([], st)
      case Last(rec) => Outcome([rec], IncompleteLastLine)
      case Next(rec, n) => Prepend([rec], Scan(s, n))
  }

  /** A label up to a TAB and an offset up to a NL parse as a record. */
  lemma ParseRecordNext(s: Bytes, i: nat, j: nat, m: nat)
    requires i < j < m < |s| && j == FieldEnd(s, i + 1) && j - i <= LABEL_SIZE - 1 && s[j] == TAB
    requires m == OffsetEnd(s, j + 1) && s[m] == NL
    ensures AllDigits(s[j + 1..m])
    ensures ParseRecord(s, i) == Next(Record(s[i..j], DigitsValue(s[j + 1..m])), m + 1)
  {
    OffsetEndSpan(s, j + 1);
  }

  /** A record followed by more input: the scan reads it and carries on. */
  lemma ScanNext(s: Bytes, i: nat)
    requires i < |s| && ParseRecord(s, i).Next?
    ensures Scan(s, i) == Prepend([ParseRecord(s, i).rec], Scan(s, ParseRecord(s, i).next))
  {
  }

  /** The table after the updates `recs`: insertStrVal of each when `insertall`,
      changeStrVal of each otherwise. */
  function Apply(es: seq<Entry>, recs: seq<Record>, insertall: bool): seq<Entry>
    decreases |recs|
  {
    if |recs| == 0 then es
    else
      var prev := Apply(es, recs[..|recs| - 1], insertall);
      var r := recs[|recs| - 1];
      if insertall then Upsert(prev, r.key, r.offset) else Change(prev, r.key, r.offset)
  }

  /** Updates keep the keys distinct, and changeStrVal updates never add a key. */
  lemma {:induction false} ApplyValid(es: seq<Entry>, recs: seq<Record>, insertall: bool)
    requires DistinctKeys(es)
    ensures DistinctKeys(Apply(es, recs, insertall))
    ensures !insertall ==> Keys(Apply(es, recs, insertall)) == Keys(es)
    decreases |recs|
  {
    if |recs| > 0 {
      var prev := Apply(es, recs[..|recs| - 1], insertall);
      var r := recs[|recs| - 1];
      ApplyValid(es, recs[..|recs| - 1], insertall);
      if insertall {
        UpsertSpec(prev, r.key, r.offset);
      } else {
        ChangeSpec(prev, r.key, r.offset);
      }
    }
  }

  /** A label that no update names keeps its value (and stays absent if absent). */
  lemma {:induction false} ApplyUntouched(es: seq<Entry>, recs: seq<Record>, insertall: bool, k: Bytes)
    requires forall m :: 0 <= m < |recs| ==> recs[m].key != k
    ensures ValueOf(Apply(es, recs, insertall), k) == ValueOf(es, k)
    ensures Find(Apply(es, recs, insertall), k) == Find(es, k)
    decreases |recs|
  {
    if |recs| > 0 {
      var prev := Apply(es, recs[..|recs| - 1], insertall);
      var r := recs[|recs| - 1];
      ApplyUntouched(es, recs[..|recs| - 1], insertall, k);
      if insertall {
        UpsertOther(prev, r.key, r.offset, k);
      } else {
        ChangeOther(prev, r.key, r.offset, k);
      }
    }
  }

  /** The last update naming a label decides its value: always when inserting,
      and when only changing, provided the label was stored beforehand. */
  lemma {:induction false} ApplyLastWins(es: seq<Entry>, recs: seq<Record>, insertall: bool, i: nat)
    requires DistinctKeys(es) && i < |recs|
    requires forall m :: i < m < |recs| ==> recs[m].key != recs[i].key
    requires !insertall ==> Find(es, recs[i].key) >= 0
    ensures ValueOf(Apply(es, recs, insertall), recs[i].key) == recs[i].offset
    decreases |recs|
  {
    var init := recs[..|recs| - 1];
    var prev := Apply(es, init, insertall);
    var r := recs[|recs| - 1];
    ApplyValid(es, init, insertall);
    if i == |recs| - 1 {
      if insertall {
        UpsertSpec(prev, r.key, r.offset);
      } else {
        FindSameKeys(prev, es, r.key);
        ChangeSpec(prev, r.key, r.offset);
      }
    } else {
      assert init[i] == recs[i];
      ApplyLastWins(es, init, insertall, i);
      if insertall {
        UpsertOther(prev, r.key, r.offset, recs[i].key);
      } else {
        ChangeOther(prev, r.key, r.offset, recs[i].key);
      }
    }
  }

  /** The label loop of scan_index_file: the record's first byte goes into
      label[0] unchecked, then bytes up to a TAB, a NL or EOF, failing when a
      1024th label byte would be stored. */
  method ReadLabel(input: Bytes, start: nat, labelBuf: array<Byte>)
    returns (lablen: nat, position: nat, ch: int, tooLong: bool)
    requires start < |input| && labelBuf.Length == LABEL_SIZE
    modifies labelBuf
    ensures var j := FieldEnd(input, start + 1);
      && (tooLong <==> j - start > LABEL_SIZE - 1)
      && (!tooLong ==> lablen == j - start && labelBuf[..lablen] == input[start..j])
      && (!tooLong && ch == EOF ==> j == |input| && position == |input|)
      && (!tooLong && ch != EOF ==> j < |input| && ch == input[j] && position == j + 1)
  {
    position := start;
    ch := input[position];
    position := position + 1;
    labelBuf[0] := ch as Byte;
    lablen := 1;
    tooLong := false;
    while true
      invariant start < position <= |input| && lablen == position - start <= LABEL_SIZE - 1
      invariant labelBuf[..lablen] == input[start..position]
      invariant FieldEnd(input, start + 1) == FieldEnd(input, position)
      decreases |input| - position
    {
      if position == |input| {
        ch := EOF;
        break;
      }
      ch := input[position];
      position := position + 1;
      if ch == TAB || ch == NL {
        break;
      }
      if lablen == LABEL_SIZE - 1 {
        tooLong := true;
        return;
      }
      labelBuf[lablen] := ch as Byte;
      lablen := lablen + 1;
    }
  }

  /** The offset loop of scan_index_file: posn[0] holds the TAB, then digits up
      to a NL or EOF, failing on a non-digit or when a 63rd byte would be stored. */
  method ReadIndex(input: Bytes, from: nat, posn: array<Byte>)
    returns (len: nat, position: nat, ch: int, st: Status)
    requires from <= |input| && posn.Length == POSN_SIZE
    modifies posn
    ensures var m := OffsetEnd(input, from);
      && (st != OK <==> m < |input| && input[m] != NL)
      && (st != OK ==> st == if m == from + POSN_SIZE - 2 then IndexTooLong else NonNumericInIndex)
      && (st == OK ==> len == m - from + 1 && posn[..len] == [TAB] + input[from..m])
      && (st == OK && ch == EOF ==> m == |input| && position == |input|)
      && (st == OK && ch != EOF ==> m < |input| && position == m + 1)
  {
    posn[0] := TAB;
    len := 1;
    position := from;
    st := OK;
    while true
      invariant from <= position <= |input| && len == position - from + 1 <= POSN_SIZE - 1
      invariant posn[..len] == [TAB] + input[from..position]
      invariant DigitEnd(input, from) == DigitEnd(input, position)
      decreases |input| - position
    {
      if position == |input| {
        ch := EOF;
        break;
      }
      ch := input[position];
      position := position + 1;
      if ch == NL {
        break;
      }
      if len == POSN_SIZE - 1 {
        st := IndexTooLong;
        return;
      }
      if !IsDigit(ch) {
        st := NonNumericInIndex;
        return;
      }
      posn[len] := ch as Byte;
      len := len + 1;
    }
  }

  /** Applying two runs of updates is applying their concatenation. */
  lemma {:induction false} ApplyAppend(es: seq<Entry>, a: seq<Record>, b: seq<Record>, insertall: bool)
    ensures Apply(es, a + b, insertall) == Apply(Apply(es, a, insertall), b, insertall)
    decreases |b|
  {
    if |b| == 0 {
      assert a + b == a;
    } else {
      assert (a + b)[..|a + b| - 1] == a + b[..|b| - 1];
      ApplyAppend(es, a, b[..|b| - 1], insertall);
    }
  }

  /** One pass of the outer loop of scan_index_file, from the record's first
      byte at `start`: the record is read and applied to `dht`, or the scan
      stops with `st`. */
  method ReadRecord(input: Bytes, start: nat, labelBuf: array<Byte>, posn: array<Byte>,
                    dht: ValueTab, insertall: bool)
    returns (position: nat, st: Status, more: bool)
    requires start < |input| && labelBuf.Length == LABEL_SIZE && posn.Length == POSN_SIZE
    requires labelBuf != posn && dht.Valid()
    modifies labelBuf, posn, dht
    ensures dht.Valid()
    ensures match ParseRecord(input, start)
      case Bad(e) => !more && st == e && dht.entries == old(dht.entries)
      case Last(rec) =>
        (!more && st == IncompleteLastLine && dht.entries == Apply(old(dht.entries), [rec], insertall))
      case Next(rec, n) =>
        (more && position == n && dht.entries == Apply(old(dht.entries), [rec], insertall))
  {
    more := false;
    var lablen, ch, tooLong;
    lablen, position, ch, tooLong := ReadLabel(input, start, labelBuf);
    if tooLong {
      return position, LabelTooLong, more;
    }
    if ch != TAB {
      st := if ch == EOF then IncompleteLastLine else NoIndex;
      return;
    }
    ghost var j := position - 1;
    var len;
    len, position, ch, st := ReadIndex(input, position, posn);
    if st != OK {
      return;
    }
    ghost var m := OffsetEnd(input, j + 1);
    var key := labelBuf[..lablen];
    OffsetEndSpan(input, j + 1);
    AtolTabDigits(input[j + 1..m]);
    var value := Atol(posn[..len]);
    assert [Record(key, value)][..0] == [];
    if insertall {
      dht.InsertStrVal(key, value);
    } else {
      dht.ChangeStrVal(key, value);
    }
    if ch == EOF {
      st := IncompleteLastLine;
      return;
    }
    more := true;
  }

  /** scan_index_file: read `label TAB offset NL` records from the start of the
      index stream and apply each to `dht`, inserting when `insertall` and only
      changing stored labels otherwise; the first malformed record stops the
      scan with its error, the updates before it having been made. */
  method ScanIndexFile(input: Bytes, dht: ValueTab, insertall: bool) returns (st: Status)
    requires dht.Valid()
    modifies dht
    ensures dht.Valid()
    ensures st == Scan(input, 0).status
    ensures dht.entries == Apply(old(dht.entries), Scan(input, 0).recs, insertall)
  {
    var labelBuf := new Byte[LABEL_SIZE];
    var posn := new Byte[POSN_SIZE];
    var position := 0;
    ghost var done: seq<Record> := [];
    while position < |input|
      invariant position <= |input|
      invariant dht.Valid() && dht.entries == Apply(old(dht.entries), done, insertall)
      invariant Scan(input, 0) == Prepend(done, Scan(input, position))
      decreases |input| - position
    {
      var start := position;
      var more;
      position, st, more := ReadRecord(input, start, labelBuf, posn, dht, insertall);
      match ParseRecord(input, start)
      case Bad(e) =>
        assert done + [] == done;
        return;
      case Last(rec) =>
        ApplyAppend(old(dht.entries), done, [rec], insertall);
        return;
      case Next(rec, n) =>
        ApplyAppend(old(dht.entries), done, [rec], insertall);
        PrependTwice(done, [rec], Scan(input, n));
        done := done + [rec];
    }
    assert done + [] == done;
    return OK;
  }

  // ---------------------------------------------------------------------
  // Header helpers.

  /** num_columns: one more column than there are tabs among the buffer's bytes;
      on a line, that is the number of its tab-separated fields. */
  method NumColumns(buf: Bytes) returns (n: nat)
    ensures n == CountTabs(buf) + 1
    ensures n == |SplitTabs(buf)|
  {
    n := 1;
    var i := 0;
    while i < |buf|
      invariant 0 <= i <= |buf|
      invariant n == CountTabs(buf[..i]) + 1
    {
      CountTabsAppend(buf[..i], [buf[i]]);
      assert buf[..i + 1] == buf[..i] + [buf[i]];
      if buf[i] == TAB {
        n := n + 1;
      }
      i := i + 1;
    }
    assert buf[..i] == buf;
    SplitTabsCount(buf);
  }

  /** The 1-based number of the first field whose C string is `lab`'s, or -1. */
  function FirstMatch(fs: seq<Bytes>, lab: Bytes): (r: int)
    ensures r == -1 || 1 <= r <= |fs|
  {
    if |fs| == 0 then -1
    else if CStr(fs[0]) == CStr(lab) then 1
    else
      var r := FirstMatch(fs[1..], lab);
      if r < 0 then -1 else r + 1
  }

  /** FirstMatch finds a field exactly when one matches, and then the first. */
  lemma {:induction false} FirstMatchSpec(fs: seq<Bytes>, lab: Bytes)
    ensures FirstMatch(fs, lab) == -1 <==> forall k :: 0 <= k < |fs| ==> CStr(fs[k]) != CStr(lab)
    ensures FirstMatch(fs, lab) >= 1 ==>
      CStr(fs[FirstMatch(fs, lab) - 1]) == CStr(lab) && forall k :: 0 <= k < FirstMatch(fs, lab) - 1 ==> CStr(fs[k]) != CStr(lab)
  {
    if |fs| > 0 && CStr(fs[0]) != CStr(lab) {
      FirstMatchSpec(fs[1..], lab);
      assert forall k :: 1 <= k < |fs| ==> fs[k] == fs[1..][k - 1];
    }
  }

  /** A label's match in a header whose first `n` fields were already read:
      the match found there (`found` >= 1) or else the match among the fields
      still to read, counted on from `n`. */
  function Resume(found: int, n: nat, r: int): int
  {
    if found >= 1 then found else if r < 0 then -1 else n + r
  }

  /** Reading one more field `f` moves a label's match from the unread fields
      into `index` exactly as MatchField does. */
  lemma ResumeStep(found: int, n: nat, f: Bytes, rest: seq<Bytes>, lab: Bytes)
    requires found == -1 || found >= 1
    ensures Resume(found, n, FirstMatch([f] + rest, lab))
      == Resume(if found < 0 && CStr(lab) == CStr(f) then n + 1 else found, n + 1, FirstMatch(rest, lab))
  {
    assert ([f] + rest)[0] == f && ([f] + rest)[1..] == rest;
  }

  /** The number of labels found so far: entries of `index` that are set. */
  function CountFound(index: seq<int>): (n: nat)
    ensures n <= |index|
  {
    if |index| == 0 then 0
    else CountFound(index[..|index| - 1]) + (if index[|index| - 1] >= 0 then 1 else 0)
  }

  /** Setting one unset entry counts one more found label. */
  lemma {:induction false} CountFoundSet(index: seq<int>, i: nat, v: int)
    requires i < |index| && index[i] < 0 && v >= 0
    ensures CountFound(index[i := v]) == CountFound(index) + 1
    decreases |index|
  {
    var t := index[i := v];
    var last := |index| - 1;
    if i < last {
      CountFoundSet(index[..last], i, v);
      assert t[..last] == index[..last][i := v];
    } else {
      assert t[..last] == index[..last];
    }
  }

  /** Every label is found exactly when the count is full, and some label is
      found exactly when the count is positive. */
  lemma {:induction false} CountFoundAll(index: seq<int>)
    ensures CountFound(index) == |index| <==> forall i :: 0 <= i < |index| ==> index[i] >= 0
    ensures CountFound(index) > 0 <==> exists i :: 0 <= i < |index| && index[i] >= 0
    decreases |index|
  {
    if |index| > 0 {
      var init := index[..|index| - 1];
      CountFoundAll(init);
      assert forall i :: 0 <= i < |init| ==> init[i] == index[i];
      if CountFound(init) > 0 {
        var i :| 0 <= i < |init| && init[i] >= 0;
        assert index[i] >= 0;
      }
    }
  }

  /** Every field of a header is short enough for find_col_indices' label buffer. */
  ghost predicate ShortFields(fs: seq<Bytes>)
  {
    |fs| > 0 ==> |fs[0]| < LABEL_SIZE && ShortFields(fs[1..])
  }

  /** The fields from `p` on: the one starting at `p`, then those after its
      terminator. */
  lemma FieldsStep(buf: Bytes, p: nat)
    requires p < |buf|
    ensures var e := FieldEnd(buf, p); var rest := Fields(buf, if e < |buf| then e + 1 else e);
      && Fields(buf, p) == [buf[p..e]] + rest
      && (ShortFields(Fields(buf, p)) ==> e - p < LABEL_SIZE && ShortFields(rest))
  {
    var e := FieldEnd(buf, p);
    var rest := Fields(buf, if e < |buf| then e + 1 else e);
    assert Fields(buf, p)[0] == buf[p..e] && Fields(buf, p)[1..] == rest;
  }

  /** The field copy of find_col_indices: the field's bytes, then a NUL, and
      the position past the field's TAB or NL. */
  method CopyField(buf: Bytes, start: nat, labelBuf: array<Byte>) returns (len: nat, position: nat)
    requires start < |buf| && labelBuf.Length == LABEL_SIZE
    requires FieldEnd(buf, start) - start < LABEL_SIZE
    modifies labelBuf
    ensures var e := FieldEnd(buf, start);
      && len == e - start && labelBuf[..len] == buf[start..e] && labelBuf[len] == NUL
      && position == if e < |buf| then e + 1 else e
  {
    position := start;
    len := 0;
    while position < |buf| && buf[position] != TAB && buf[position] != NL
      invariant start <= position <= FieldEnd(buf, start) && len == position - start
      invariant FieldEnd(buf, start) == FieldEnd(buf, position)
      invariant labelBuf[..len] == buf[start..position]
      decreases |buf| - position
    {
      labelBuf[len] := buf[position];
      assert labelBuf[..len + 1] == labelBuf[..len] + [buf[position]];
      assert buf[start..position + 1] == buf[start..position] + [buf[position]];
      position := position + 1;
      len := len + 1;
    }
    labelBuf[len] := NUL;
    assert labelBuf[..len] == buf[start..position];
    if position < |buf| {
      position := position + 1;
    }
  }

  /** The label loop of find_col_indices for field number `fieldnum`: each
      label not found before whose C string is the field's gets `fieldnum`. */
  method MatchField(labels: seq<Bytes>, field: Bytes, fieldnum: int, index: array<int>, nfound: nat)
    returns (count: nat)
    requires index.Length == |labels| && fieldnum >= 1 && nfound == CountFound(index[..])
    modifies index
    ensures forall i :: 0 <= i < index.Length ==>
      index[i] == if old(index[i]) < 0 && CStr(labels[i]) == CStr(field) then fieldnum else old(index[i])
    ensures count == CountFound(index[..])
  {
    count := nfound;
    var i := 0;
    while i < |labels|
      invariant 0 <= i <= |labels| && count == CountFound(index[..])
      invariant forall k :: 0 <= k < i ==>
        index[k] == if old(index[k]) < 0 && CStr(labels[k]) == CStr(field) then fieldnum else old(index[k])
      invariant forall k :: i <= k < index.Length ==> index[k] == old(index[k])
    {
      if CStr(labels[i]) == CStr(field) {
        if index[i] < 0 {
          CountFoundSet(index[..], i, fieldnum);
          index[i] := fieldnum;
          count := count + 1;
        }
      }
      i := i + 1;
    }
  }

  /** One pass of the field loop of find_col_indices: copy field number
      `fieldnum + 1` and match it against every label. */
  method NextField(buf: Bytes, position: nat, labels: seq<Bytes>, labelBuf: array<Byte>,
                   index: array<int>, nfound: nat, fieldnum: nat)
    returns (next: nat, count: nat)
    requires position < |buf| && ShortFields(Fields(buf, position))
    requires labelBuf.Length == LABEL_SIZE && index.Length == |labels|
    requires forall k :: 0 <= k < index.Length ==> index[k] == -1 || index[k] >= 1
    requires nfound == CountFound(index[..])
    modifies labelBuf, index
    ensures position < next <= |buf| && ShortFields(Fields(buf, next))
    ensures forall k :: 0 <= k < index.Length ==> index[k] == -1 || index[k] >= 1
    ensures forall k :: 0 <= k < index.Length ==>
      Resume(old(index[k]), fieldnum, FirstMatch(Fields(buf, position), labels[k]))
        == Resume(index[k], fieldnum + 1, FirstMatch(Fields(buf, next), labels[k]))
    ensures count == CountFound(index[..])
  {
    FieldsStep(buf, position);
    ghost var e := FieldEnd(buf, position);
    ghost var rest := Fields(buf, if e < |buf| then e + 1 else e);
    ghost var before := index[..];
    var len;
    len, next := CopyField(buf, position, labelBuf);
    var field := labelBuf[..len];
    forall k | 0 <= k < |labels| {
      ResumeStep(before[k], fieldnum, field, rest, labels[k]);
    }
    count := MatchField(labels, field, fieldnum + 1, index, nfound);
  }

  /** The field loop of find_col_indices, from all indices unset: it stops
      early once every label is found, which leaves the indices as a full
      pass would. */
  method MatchFields(buf: Bytes, labels: seq<Bytes>, index: array<int>) returns (nfound: nat)
    requires index.Length == |labels| && ShortFields(Fields(buf, 0))
    requires forall k :: 0 <= k < index.Length ==> index[k] == -1
    modifies index
    ensures forall k :: 0 <= k < index.Length ==> index[k] == FirstMatch(Fields(buf, 0), labels[k])
    ensures nfound == CountFound(index[..])
  {
    CountFoundAll(index[..]);
    var labelBuf := new Byte[LABEL_SIZE];
    nfound := 0;
    var position := 0;
    var fieldnum := 0;
    while nfound < |labels| && position < |buf|
      invariant position <= |buf| && ShortFields(Fields(buf, position))
      invariant forall k :: 0 <= k < index.Length ==> index[k] == -1 || index[k] >= 1
      invariant forall k :: 0 <= k < index.Length ==>
        FirstMatch(Fields(buf, 0), labels[k]) == Resume(index[k], fieldnum, FirstMatch(Fields(buf, position), labels[k]))
      invariant nfound == CountFound(index[..])
      decreases |buf| - position
    {
      position, nfound := NextField(buf, position, labels, labelBuf, index, nfound, fieldnum);
      fieldnum := fieldnum + 1;
    }
    if position < |buf| {
      CountFoundAll(index[..]);
      assert forall k :: 0 <= k < index.Length ==> index[..][k] >= 0;
    }
  }

  /** find_col_indices: the 1-based number of the header field matching each
      label (the first one when several do; -1 when none does), and whether
      enough labels were found: any of them when `findany`, all otherwise. */
  method FindColIndices(buf: Bytes, findany: bool, labels: seq<Bytes>, index: array<int>)
    returns (st: Status)
    requires index.Length == |labels| && ShortFields(Fields(buf, 0))
    modifies index
    ensures forall i :: 0 <= i < index.Length ==> index[i] == FirstMatch(Fields(buf, 0), labels[i])
    ensures st == OK || st == LabelNotFound
    ensures findany ==> (st == OK <==> exists i :: 0 <= i < index.Length && index[i] >= 0)
    ensures !findany ==> (st == OK <==> forall i :: 0 <= i < index.Length ==> index[i] >= 0)
  {
    var i := 0;
    while i < index.Length
      invariant 0 <= i <= index.Length
      invariant forall k :: 0 <= k < i ==> index[k] == -1
    {
      index[i] := -1;
      i := i + 1;
    }
    var nfound := MatchFields(buf, labels, index);
    CountFoundAll(index[..]);
    if findany {
      st := if nfound > 0 then OK else LabelNotFound;
    } else if nfound < |labels| {
      st := LabelNotFound;
    } else {
      st := OK;
    }
  }
}
