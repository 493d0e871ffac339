/** The index file read back: scan_index_file recovers exactly the records
    generate_index writes, as long as every label is shorter than
    scan_index_file's label buffer and every offset fits its offset buffer. */
module RoundTrip {
  import opened Text
  import opened TsvIo
  import opened IndexFormat
  import opened ValueDht
  import opened GenIndex
  import opened GetLines

  /** A record scan_index_file can read back from its printed line. */
  ghost predicate Readable(r: Record)
  {
    && 1 <= |r.key| < LABEL_SIZE
    && NoTab(r.key) && NoNewline(r.key)
    && |Decimal(r.offset)| <= POSN_SIZE - 2
  }

  /** Where the pieces of a printed line sit in a stream that contains it. */
  lemma LineBytes(p: Bytes, r: Record, tail: Bytes)
    ensures var s := p + Line(r) + tail; var ds := Decimal(r.offset);
      var i, j := |p|, |p| + |r.key|;
      && |s| > j + 1 + |ds|
      && s[i..j] == r.key && s[j] == TAB
      && s[j + 1..j + 1 + |ds|] == ds && s[j + 1 + |ds|] == NL
      && |Line(r)| == |r.key| + |ds| + 2
  {
    var s := p + Line(r) + tail;
    var ds := Decimal(r.offset);
    var line := Line(r);
    assert line == r.key + ([TAB] + ds + [NL]);
    assert s[|p|..|p| + |line|] == line;
    var i, j := |p|, |p| + |r.key|;
    assert s[i..j] == line[..|r.key|];
    assert s[j + 1..j + 1 + |ds|] == line[|r.key| + 1..|r.key| + 1 + |ds|];
  }

  /** The label of a readable record's line ends at its TAB. */
  lemma LabelEnd(s: Bytes, i: nat, j: nat, key: Bytes)
    requires i < j < |s| && s[i..j] == key && s[j] == TAB && NoTab(key) && NoNewline(key)
    ensures FieldEnd(s, i + 1) == j
  {
    assert forall k :: i + 1 <= k < j ==> s[k] == key[k - i];
    FieldEndIs(s, i + 1, j);
  }

  /** The offset of a readable record's line ends at its NL. */
  lemma OffsetEndAt(s: Bytes, a: nat, ds: Bytes)
    requires a + |ds| < |s| && s[a..a + |ds|] == ds && s[a + |ds|] == NL
    requires AllDigits(ds) && |ds| <= POSN_SIZE - 2
    ensures OffsetEnd(s, a) == a + |ds|
  {
    assert forall k :: a <= k < a + |ds| ==> s[k] == ds[k - a];
    DigitEndIs(s, a, a + |ds|);
  }

  /** A readable record's line, wherever it sits, parses back to the record. */
  lemma ParseAt(s: Bytes, i: nat, r: Record)
    requires Readable(r) && i + |r.key| + |Decimal(r.offset)| + 1 < |s|
    requires s[i..i + |r.key|] == r.key && s[i + |r.key|] == TAB
    requires s[i + |r.key| + 1..i + |r.key| + 1 + |Decimal(r.offset)|] == Decimal(r.offset)
    requires s[i + |r.key| + 1 + |Decimal(r.offset)|] == NL
    ensures ParseRecord(s, i) == Next(r, i + |r.key| + |Decimal(r.offset)| + 2)
  {
    var ds := Decimal(r.offset);
    var j := i + |r.key|;
    var m := j + 1 + |ds|;
    LabelEnd(s, i, j, r.key);
    OffsetEndAt(s, j + 1, ds);
    ParseRecordNext(s, i, j, m);
    DecimalRoundTrip(r.offset);
  }

  /** The line of a readable record parses back to the record. */
  lemma ParseLine(p: Bytes, r: Record, tail: Bytes)
    requires Readable(r)
    ensures ParseRecord(p + Line(r) + tail, |p|) == Next(r, |p| + |Line(r)|)
  {
    LineBytes(p, r, tail);
    ParseAt(p + Line(r) + tail, |p|, r);
  }

  /** The first printed line, then the rest. */
  lemma SerializeCons(p: Bytes, recs: seq<Record>)
    requires |recs| > 0
    ensures p + Serialize(recs) == (p + Line(recs[0])) + Serialize(recs[1..])
  {
  }

  /** Scanning the printed records, from wherever they start, reads them all back. */
  lemma {:induction false} ScanSerialize(p: Bytes, recs: seq<Record>)
    requires forall k :: 0 <= k < |recs| ==> Readable(recs[k])
    ensures Scan(p + Serialize(recs), |p|) == Outcome(recs, OK)
    decreases |recs|
  {
    if |recs| == 0 {
      assert p + Serialize(recs) == p;
    } else {
      var r, rest := recs[0], recs[1..];
      var p2 := p + Line(r);
      var s := p + Serialize(recs);
      SerializeCons(p, recs);
      assert s == p2 + Serialize(rest);
      ParseLine(p, r, Serialize(rest));
      ScanSerialize(p2, rest);
      ScanCons(s, |p|, |p2|, r, rest);
      assert [r] + rest == recs;
    }
  }

  /** Reading one record, then reading the rest without error. */
  lemma ScanCons(s: Bytes, i: nat, n: nat, r: Record, rest: seq<Record>)
    requires i < n <= |s| && ParseRecord(s, i) == Next(r, n) && Scan(s, n) == Outcome(rest, OK)
    ensures Scan(s, i) == Outcome([r] + rest, OK)
  {
    ScanNext(s, i);
  }

  /** A label of 1024 bytes or more is written by generate_index but refused by
      scan_index_file. */
  lemma LongLabelRejected(p: Bytes, recs: seq<Record>)
    requires |recs| > 0 && |recs[0].key| >= LABEL_SIZE
    requires NoTab(recs[0].key) && NoNewline(recs[0].key)
    ensures Scan(p + Serialize(recs), |p|) == Outcome([], LabelTooLong)
  {
    var r := recs[0];
    SerializeCons(p, recs);
    LineBytes(p, r, Serialize(recs[1..]));
    LongLabelAt(p + Serialize(recs), |p|, r.key);
  }

  /** scan_index_file stops at a label of 1024 bytes or more. */
  lemma LongLabelAt(s: Bytes, i: nat, key: Bytes)
    requires i + |key| < |s| && s[i..i + |key|] == key && s[i + |key|] == TAB
    requires |key| >= LABEL_SIZE && NoTab(key) && NoNewline(key)
    ensures Scan(s, i) == Outcome([], LabelTooLong)
  {
    LabelEnd(s, i, i + |key|, key);
  }

  /** Every record of a sound list is a record of the file. */
  lemma {:induction false} SoundAll(s: Bytes, i: nat, rs: seq<Record>)
    requires SoundFrom(s, i, rs)
    ensures forall k :: 0 <= k < |rs| ==> IsRecordOf(s, rs[k])
    decreases |rs|
  {
    if |rs| > 0 {
      SoundAll(s, rs[0].offset + 1, rs[1..]);
      assert forall k :: 1 <= k < |rs| ==> rs[k] == rs[1..][k - 1];
    }
  }

  /** A record of a file whose offsets print in at most 62 digits is readable
      when its label is short enough. */
  lemma RecordReadable(s: Bytes, r: Record)
    requires IsRecordOf(s, r) && |r.key| < LABEL_SIZE && |Decimal(|s|)| <= POSN_SIZE - 2
    ensures Readable(r)
  {
    FieldEndSpan(s, r.offset);
    DecimalMonotone(r.offset, |s|);
    assert forall k :: 0 <= k < |r.key| ==> r.key[k] == s[r.offset + k];
  }

  /** Reading back the index of a TSV file gives its records in file order, with
      no error, whatever status the generating pass ended with. */
  lemma IndexRoundTrip(s: Bytes)
    requires |Decimal(|s|)| <= POSN_SIZE - 2
    requires forall k :: 0 <= k < |IndexOf(s).recs| ==> |IndexOf(s).recs[k].key| < LABEL_SIZE
    ensures Scan(Serialize(IndexOf(s).recs), 0) == Outcome(IndexOf(s).recs, OK)
  {
    var recs := IndexOf(s).recs;
    IndexOfSound(s);
    SoundAll(s, LineEnd(s, 0) + 1, recs);
    forall k | 0 <= k < |recs|
      ensures Readable(recs[k])
    {
      RecordReadable(s, recs[k]);
    }
    ScanSerialize([], recs);
    assert [] + Serialize(recs) == Serialize(recs);
  }

  /** Loading that index into an empty table with insertall gives each label
      the offset of the last data line that carries it. */
  lemma IndexLookup(s: Bytes, i: nat)
    requires |Decimal(|s|)| <= POSN_SIZE - 2
    requires forall k :: 0 <= k < |IndexOf(s).recs| ==> |IndexOf(s).recs[k].key| < LABEL_SIZE
    requires i < |IndexOf(s).recs|
    requires forall m :: i < m < |IndexOf(s).recs| ==> IndexOf(s).recs[m].key != IndexOf(s).recs[i].key
    ensures var r := IndexOf(s).recs[i];
      ValueOf(Apply([], Scan(Serialize(IndexOf(s).recs), 0).recs, true), r.key) == r.offset
  {
    IndexRoundTrip(s);
    ApplyLastWins([], IndexOf(s).recs, true, i);
  }
}
