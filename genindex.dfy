/** generate_index (src/genindex.c): one pass over a TSV file that writes an
    index line for every data line, counting the bytes read in `position`. */
module GenIndex {
  import opened Text
  import opened TsvIo
  import opened IndexFormat

  /** The records of the data lines from byte `i` on, and how the pass ends:
      a blank line is skipped, a line that starts with TAB stops the pass,
      any other line is indexed by its bytes before its first TAB or NL, at the
      offset where it starts; a last line without NL ends the pass. */
  function DataRecords(s: Bytes, i: nat): Outcome
    requires i <= |s|
    decreases |s| - i
  {
    if i == |s| then Outcome([], OK)
    else if s[i] == NL then DataRecords(s, i + 1)
    else if s[i] == TAB then Outcome([], NoLabelError)
    else
      var rec := Record(s[i..FieldEnd(s, i)], i);
      var l := LineEnd(s, i);
      if l == |s| then Outcome([rec], IncompleteLastLine)
      else Prepend([rec], DataRecords(s, l + 1))
  }

  /** What generate_index does with the file `s`: the header line, through its
      newline, is skipped; a file without a newline has no data lines. */
  function IndexOf(s: Bytes): Outcome
  {
    var h := LineEnd(s, 0);
    if h == |s| then Outcome([], if |s| == 0 then EmptyFile else IncompleteLastLine)
    else DataRecords(s, h + 1)
  }

  /** `r` indexes a data line of `s`: its offset is where a line starts (just
      after a NL, so never in the header), that line starts with neither TAB nor
      NL, and the label is the line's bytes up to its first TAB or NL. */
  ghost predicate IsRecordOf(s: Bytes, r: Record)
  {
    && 0 < r.offset < |s| && s[r.offset - 1] == NL
    && s[r.offset] != TAB && s[r.offset] != NL
    && r.key == s[r.offset..FieldEnd(s, r.offset)]
  }

  /** Records that each index a line at or after `i`, in increasing order of
      offset. */
  ghost predicate SoundFrom(s: Bytes, i: nat, rs: seq<Record>)
    decreases |rs|
  {
    |rs| > 0 ==> IsRecordOf(s, rs[0]) && i <= rs[0].offset && SoundFrom(s, rs[0].offset + 1, rs[1..])
  }

  lemma {:induction false} SoundWeaken(s: Bytes, i: nat, j: nat, rs: seq<Record>)
    requires i <= j && SoundFrom(s, j, rs)
    ensures SoundFrom(s, i, rs)
  {
  }

  /** A record of a line at or after `i`, before sound records from `j` on. */
  lemma SoundCons(s: Bytes, i: nat, r: Record, j: nat, rest: seq<Record>)
    requires IsRecordOf(s, r) && i <= r.offset && r.offset < j && SoundFrom(s, j, rest)
    ensures SoundFrom(s, i, [r] + rest)
  {
    SoundWeaken(s, r.offset + 1, j, rest);
    assert ([r] + rest)[0] == r && ([r] + rest)[1..] == rest;
  }

  /** Every record of a pass over whole lines indexes a line at or after `i`,
      and the offsets strictly increase. */
  lemma {:induction false} DataRecordsSound(s: Bytes, i: nat)
    requires 0 < i <= |s| && s[i - 1] == NL
    ensures SoundFrom(s, i, DataRecords(s, i).recs)
    decreases |s| - i
  {
    if i < |s| && s[i] == NL {
      DataRecordsSound(s, i + 1);
      assert DataRecords(s, i) == DataRecords(s, i + 1);
      SoundWeaken(s, i, i + 1, DataRecords(s, i + 1).recs);
    } else if i < |s| && s[i] != TAB {
      var rec := Record(s[i..FieldEnd(s, i)], i);
      assert IsRecordOf(s, rec);
      var l := LineEnd(s, i);
      if l < |s| {
        DataLine(s, i);
        DataRecordsSound(s, l + 1);
        SoundCons(s, i, rec, l + 1, DataRecords(s, l + 1).recs);
      } else {
        assert DataRecords(s, i).recs == [rec];
        SoundCons(s, i, rec, i + 1, []);
        assert [rec] + [] == [rec];
      }
    }
  }

  /** When no line starts with TAB, every line from `i` on that is not blank
      gets a record. */
  lemma {:induction false} DataRecordsComplete(s: Bytes, i: nat, p: nat)
    requires i <= p < |s| && (p == i || s[p - 1] == NL) && s[p] != NL
    requires DataRecords(s, i).status != NoLabelError
    ensures exists k :: 0 <= k < |DataRecords(s, i).recs| && DataRecords(s, i).recs[k].offset == p
    decreases |s| - i
  {
    if s[i] == NL {
      DataRecordsComplete(s, i + 1, p);
    } else if p > i {
      var l := LineEnd(s, i);
      LineEndSpan(s, i);
      assert l < p;
      var rec := Record(s[i..FieldEnd(s, i)], i);
      var rest := DataRecords(s, l + 1).recs;
      assert s[i] != TAB;
      DataLine(s, i);
      DataRecordsComplete(s, l + 1, p);
      var k :| 0 <= k < |rest| && rest[k].offset == p;
      assert ([rec] + rest)[k + 1] == rest[k];
    } else {
      assert DataRecords(s, i).recs[0] == Record(s[i..FieldEnd(s, i)], i);
    }
  }

  /** A line starting with TAB ends the pass with NO_LABEL_ERROR, and only the
      lines before it have records. */
  lemma {:induction false} TabLineStops(s: Bytes, i: nat, p: nat)
    requires i <= p < |s| && (p == i || s[p - 1] == NL) && s[p] == TAB
    ensures DataRecords(s, i).status == NoLabelError
    ensures forall k :: 0 <= k < |DataRecords(s, i).recs| ==> DataRecords(s, i).recs[k].offset < p
    decreases |s| - i
  {
    if s[i] == NL {
      TabLineStops(s, i + 1, p);
    } else if s[i] != TAB {
      var l := LineEnd(s, i);
      LineEndSpan(s, i);
      assert l < p;
      TabLineStops(s, l + 1, p);
    }
  }

  /** A file without a newline has no data lines: nothing is written, and the
      status tells an empty file from a lone unterminated header. */
  lemma NoNewlineFile(s: Bytes)
    requires NoNewline(s)
    ensures IndexOf(s) == Outcome([], if |s| == 0 then EmptyFile else IncompleteLastLine)
  {
    LineEndNone(s, 0);
  }

  /** Every record comes from a data line after the header: none indexes the
      header line. */
  lemma IndexOfSound(s: Bytes)
    ensures SoundFrom(s, LineEnd(s, 0) + 1, IndexOf(s).recs)
  {
    var h := LineEnd(s, 0);
    if h < |s| {
      DataRecordsSound(s, h + 1);
    }
  }

  /** The code finds a line's end in two loops: the label loop stops at the
      first TAB or NL, and only after a TAB does the second loop look for the NL. */
  lemma {:induction false} LineEndAfterLabel(s: Bytes, i: nat)
    requires i <= |s|
    ensures var e := FieldEnd(s, i);
      LineEnd(s, i) == if e < |s| && s[e] == TAB then LineEnd(s, e + 1) else e
    decreases |s| - i
  {
    if !(i == |s| || s[i] == TAB || s[i] == NL) {
      LineEndAfterLabel(s, i + 1);
    }
  }

  /** A data line that ends in NL gives its record, then the pass goes on
      after the NL. */
  lemma DataLine(s: Bytes, i: nat)
    requires i < |s| && s[i] != NL && s[i] != TAB && LineEnd(s, i) < |s|
    ensures DataRecords(s, i).recs == [Record(s[i..FieldEnd(s, i)], i)] + DataRecords(s, LineEnd(s, i) + 1).recs
    ensures DataRecords(s, i).status == DataRecords(s, LineEnd(s, i) + 1).status
    ensures DataRecords(s, i) == Prepend([Record(s[i..FieldEnd(s, i)], i)], DataRecords(s, LineEnd(s, i) + 1))
  {
  }

  /** The label loop of generate_index: with the label's first byte, at
      `start`, already written, copy bytes to `output` until a TAB, a NL or EOF.
      `ch` is the byte that stopped the copy, `position` counts it. */
  method CopyLabel(input: Bytes, start: nat, written: Bytes) returns (output: Bytes, position: nat, ch: int)
    requires start < |input| && input[start] != TAB && input[start] != NL
    ensures output == written + input[start..FieldEnd(input, start)]
    ensures ch == EOF ==> FieldEnd(input, start) == |input| && position == |input|
    ensures ch != EOF ==> position == FieldEnd(input, start) + 1 && position <= |input|
                          && ch == input[position - 1] && (ch == TAB || ch == NL)
  {
    position := start + 1;
    output := written + [input[start]];
    while true
      invariant start < position <= |input| && FieldEnd(input, start) == FieldEnd(input, position)
      invariant output == written + input[start..position]
      decreases |input| - position
    {
      if position == |input| {
        ch := EOF;
        break;
      }
      ch := input[position];
      position := position + 1;
      if ch == TAB || ch == NL {
        break;
      }
      output := output + [ch as Byte];
    }
  }

  /** The loop that skips what remains of a line after the label's TAB. */
  method SkipLine(input: Bytes, from: nat) returns (position: nat, ch: int)
    requires from <= |input|
    ensures ch == EOF ==> LineEnd(input, from) == |input| && position == |input|
    ensures ch != EOF ==> position == LineEnd(input, from) + 1 && position <= |input| && ch == NL
  {
    position := from;
    while true
      invariant from <= position <= |input| && LineEnd(input, from) == LineEnd(input, position)
      decreases |input| - position
    {
      if position == |input| {
        ch := EOF;
        break;
      }
      ch := input[position];
      position := position + 1;
      if ch == NL {
        break;
      }
    }
  }

  /** One data line that starts at `start` with neither TAB nor NL: copy its
      label, skip the rest of the line, and print the line's start offset. */
  method IndexLine(input: Bytes, start: nat, written: Bytes) returns (output: Bytes, position: nat, ch: int)
    requires start < |input| && input[start] != TAB && input[start] != NL
    ensures output == written + input[start..FieldEnd(input, start)] + Printed(start)
    ensures ch == EOF ==> LineEnd(input, start) == |input| && position == |input|
    ensures ch != EOF ==> position == LineEnd(input, start) + 1 <= |input|
  {
    output, position, ch := CopyLabel(input, start, written);
    ghost var e := FieldEnd(input, start);
    LineEndAfterLabel(input, start);
    if ch == TAB {
      position, ch := SkipLine(input, position);
    }
    output := output + Printed(start);
  }

  /** One turn of the main loop at the line start `start`: a blank line is
      stepped over, a line starting with TAB stops with NO_LABEL_ERROR, and a
      data line writes its index line. `more` are the records written; when the
      pass goes on, the rest of the records are those from `position`, and when
      it stops, `st` is how it ends. */
  method IndexStep(input: Bytes, start: nat, ghost done: seq<Record>, written: Bytes)
      returns (output: Bytes, position: nat, going: bool, st: Status, ghost more: seq<Record>)
    requires start < |input| && written == Serialize(done)
    ensures output == Serialize(done + more)
    ensures going ==> start < position <= |input| && DataRecords(input, start) == Prepend(more, DataRecords(input, position))
    ensures !going ==> DataRecords(input, start) == Outcome(more, st)
  {
    var ch := input[start];
    position := start + 1;
    going, st, more := true, OK, [];
    assert done + [] == done;
    if ch == NL {
      output := written;
      assert DataRecords(input, start) == DataRecords(input, position) == Prepend([], DataRecords(input, position));
    } else if ch == TAB {
      output := written;
      going, st := false, NoLabelError;
    } else {
      ghost var rec := Record(input[start..FieldEnd(input, start)], start);
      var c;
      output, position, c := IndexLine(input, start, written);
      SerializeSnoc(done, rec);
      more := [rec];
      if c == EOF {
        going, st := false, IncompleteLastLine;
      } else {
        DataLine(input, start);
        assert position == LineEnd(input, start) + 1;
        assert DataRecords(input, start) == Prepend(more, DataRecords(input, position));
      }
    }
  }

  /** The main loop of generate_index over the data lines from `first`. */
  method IndexLines(input: Bytes, first: nat) returns (output: Bytes, st: Status)
    requires first <= |input|
    ensures output == Serialize(DataRecords(input, first).recs) && st == DataRecords(input, first).status
  {
    var position := first;
    output := [];
    ghost var done: seq<Record> := [];
    while true
      invariant first <= position <= |input|
      invariant output == Serialize(done)
      invariant DataRecords(input, first) == Prepend(done, DataRecords(input, position))
      decreases |input| - position
    {
      if position == |input| {
        assert done + [] == done;
        return output, OK;
      }
      var going;
      ghost var more;
      output, position, going, st, more := IndexStep(input, position, done, output);
      if !going {
        return;
      }
      PrependTwice(done, more, DataRecords(input, position));
      done := done + more;
    }
  }

  /** generate_index, reading `input` with getc and writing the index bytes with
      putc and fprintf. */
  method GenerateIndex(input: Bytes) returns (output: Bytes, st: Status)
    ensures output == Serialize(IndexOf(input).recs) && st == IndexOf(input).status
  {
    // Skip the header line.
    var position, ch := SkipLine(input, 0);
    if ch == EOF {
      return [], if position == 0 then EmptyFile else IncompleteLastLine;
    }
    output, st := IndexLines(input, position);
  }
}
