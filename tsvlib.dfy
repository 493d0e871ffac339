/** The selection and extraction logic of src/tsvlib.c: which statuses are
    fatal, reading one line at a byte offset, splitting a data line into the
    cells of the result matrix, numbering the columns of a header, the map from
    a file's columns to the result's, the order rows are read in, and the
    rules that decide whether a request matched enough labels. */
module TsvLib {
  import opened Text
  import opened TsvIo
  import opened IndexFormat
  import opened ValueDht
  import opened GenIndex
  import opened GetLines

  /** The calls to R's `error()` in this file, which abandon the request. */
  datatype Raised =
    | SeekError            // get_tsv_line_buffer: fseek to a negative position fails
    | LineTooLong          // get_tsv_line_buffer: the line does not fit the buffer
    | HeaderUnreadable     // scan_header_line: not even a header line
    | PatternCountMismatch // scan_header_line: header and data columns disagree
    | NoPatterns           // tsvGetLines: no patterns were given
    | IndexScanFailed      // tsvGetLines: scan_index_file did not return OK
    | NoMatch              // no requested label was found
    | NotAllMatched        // a required label was not found

  // ---------------------------------------------------------------------
  // is_fatal_error

  /** is_fatal_error: every status but OK, EMPTY_FILE and INCOMPLETE_LAST_LINE
      abandons the request. */
  predicate IsFatalError(st: Status)
  {
    st != OK && st != EmptyFile && st != IncompleteLastLine
  }

  /** The data lines of a pass end in OK, at a last line without NL, or at a
      line that starts with TAB. */
  lemma {:induction false} DataRecordsStatus(s: Bytes, i: nat)
    requires i <= |s|
    ensures var st := DataRecords(s, i).status;
      st == OK || st == IncompleteLastLine || st == NoLabelError
    decreases |s| - i
  {
    if i < |s| {
      if s[i] == NL {
        DataRecordsStatus(s, i + 1);
      } else if s[i] != TAB && LineEnd(s, i) < |s| {
        DataLine(s, i);
        DataRecordsStatus(s, LineEnd(s, i) + 1);
      }
    }
  }

  /** A pass that ends in NO_LABEL_ERROR met a line `p` that starts with TAB. */
  lemma {:induction false} NoLabelLine(s: Bytes, i: nat) returns (p: nat)
    requires i <= |s| && DataRecords(s, i).status == NoLabelError
    ensures i <= p < |s| && (p == i || s[p - 1] == NL) && s[p] == TAB
    decreases |s| - i
  {
    if s[i] == NL {
      p := NoLabelLine(s, i + 1);
    } else if s[i] == TAB {
      p := i;
    } else {
      var l := LineEnd(s, i);
      DataLine(s, i);
      p := NoLabelLine(s, l + 1);
    }
  }

  /** Indexing a file fails fatally exactly when one of its data lines starts
      with TAB; an empty file, a lone header and a last line without NL are
      only warned about. */
  lemma IndexFatal(s: Bytes)
    ensures IsFatalError(IndexOf(s).status) <==> IndexOf(s).status == NoLabelError
    ensures IsFatalError(IndexOf(s).status) <==>
      exists p :: LineEnd(s, 0) < p < |s| && s[p - 1] == NL && s[p] == TAB
  {
    var h := LineEnd(s, 0);
    if h < |s| {
      DataRecordsStatus(s, h + 1);
      if p :| h < p < |s| && s[p - 1] == NL && s[p] == TAB {
        TabLineStops(s, h + 1, p);
      }
      if IndexOf(s).status == NoLabelError {
        var p := NoLabelLine(s, h + 1);
      }
    }
  }

  // ---------------------------------------------------------------------
  // get_tsv_line_buffer

  /** The bytes of the line that starts at `posn`, without its NL; a position
      past the end of the file reads as the end. */
  function LineAt(s: Bytes, posn: nat): (line: Bytes)
    ensures NoNewline(line)
  {
    var q := if posn <= |s| then posn else |s|;
    LineEndSpan(s, q);
    s[q..LineEnd(s, q)]
  }

  /** The error reading the line at `posn` raises, if any: a negative
      position cannot be sought, and a line of `size` bytes or more does not
      fit the buffer with its NL. */
  function LineError(input: Bytes, posn: int, size: nat): Option<Raised>
  {
    if posn < 0 then Some(SeekError)
    else if |LineAt(input, posn)| >= size then Some(LineTooLong)
    else None
  }

  /** get_tsv_line_buffer: seek to `posn`, copy the line into `buffer` and put
      a NL after it; `eof` says the line ended at the end of the file (the
      source warns). A line of `buffer.Length` bytes or more raises an error. */
  method GetTsvLineBuffer(input: Bytes, posn: int, buffer: array<Byte>)
    returns (len: nat, eof: bool, err: Option<Raised>)
    requires buffer.Length >= 1
    modifies buffer
    ensures err == LineError(input, posn, buffer.Length)
    ensures err.None? ==> var line := LineAt(input, posn);
      && len == |line| + 1 && buffer[..len] == line + [NL]
      && (eof <==> posn >= |input| || LineEnd(input, posn) == |input|)
  {
    if posn < 0 {
      return 0, false, Some(SeekError);
    }
    var q := if posn <= |input| then posn else |input|;
    var position := q;
    len := 0;
    while position < |input| && input[position] != NL
      invariant q <= position <= LineEnd(input, q) && len == position - q
      invariant LineEnd(input, q) == LineEnd(input, position)
      invariant len <= buffer.Length - 1
      invariant buffer[..len] == input[q..position]
      decreases |input| - position
    {
      if len >= buffer.Length - 1 {
        return len, false, Some(LineTooLong);
      }
      buffer[len] := input[position];
      position := position + 1;
      len := len + 1;
    }
    eof := position == |input|;
    buffer[len] := NL;
    len := len + 1;
    err := None;
    assert buffer[..len] == input[q..position] + [NL];
  }

  // ---------------------------------------------------------------------
  // get_tsv_fields

  /** One call of the result setter: the cell at `index` of the column-major
      result matrix gets the bytes `cell`. */
  datatype CellWrite = CellWrite(index: int, cell: Bytes)

  /** The data fields of a line: every tab-separated field after the row label. */
  function DataFields(line: Bytes): seq<Bytes>
  {
    SplitTabs(line)[1..]
  }

  /** The first `maxColumn + 1` data fields, or all of them on a shorter line. */
  function Wanted(fields: seq<Bytes>, maxColumn: int): (w: seq<Bytes>)
    requires maxColumn >= -1
    ensures |w| <= maxColumn + 1
  {
    if |fields| <= maxColumn + 1 then fields else fields[..maxColumn + 1]
  }

  /** The setter calls for data fields `fields` of row `rowid`: input column c
      goes to output column `columnMap[c]` when that is not negative. */
  function CellWrites(fields: seq<Bytes>, columnMap: seq<int>, nrows: int, rowid: int): seq<CellWrite>
    requires |fields| <= |columnMap|
  {
    if |fields| == 0 then []
    else
      var c := |fields| - 1;
      CellWrites(fields[..c], columnMap, nrows, rowid)
        + (if columnMap[c] >= 0 then [CellWrite(columnMap[c] * nrows + rowid, fields[c])] else [])
  }

  /** Exactly the mapped columns are written, each with its own field: no other
      cell of the row is touched. */
  lemma {:induction false} CellWritesSpec(fields: seq<Bytes>, columnMap: seq<int>, nrows: int, rowid: int)
    requires |fields| <= |columnMap|
    ensures forall c :: 0 <= c < |fields| && columnMap[c] >= 0 ==>
      CellWrite(columnMap[c] * nrows + rowid, fields[c]) in CellWrites(fields, columnMap, nrows, rowid)
    ensures forall w :: w in CellWrites(fields, columnMap, nrows, rowid) ==>
      exists c :: 0 <= c < |fields| && columnMap[c] >= 0 && w == CellWrite(columnMap[c] * nrows + rowid, fields[c])
  {
    if |fields| > 0 {
      var n := |fields| - 1;
      var init := fields[..n];
      CellWritesSpec(init, columnMap, nrows, rowid);
      assert forall c :: 0 <= c < n ==> init[c] == fields[c];
    }
  }

  lemma MulMonotone(a: int, b: int, n: nat)
    requires a <= b
    ensures a * n <= b * n
  {
    assert b * n - a * n == (b - a) * n;
  }

  /** In the column-major result of `nrows` rows, output column `o` of row `r`
      is its own cell, inside a matrix of `ncols` columns. */
  lemma CellIndex(o1: nat, r1: nat, o2: nat, r2: nat, nrows: nat, ncols: nat)
    requires r1 < nrows && r2 < nrows && o1 < ncols && o2 < ncols
    ensures 0 <= o1 * nrows + r1 < ncols * nrows
    ensures o1 * nrows + r1 == o2 * nrows + r2 ==> o1 == o2 && r1 == r2
  {
    MulMonotone(o1 + 1, ncols, nrows);
    assert (o1 + 1) * nrows == o1 * nrows + nrows;
    if o1 < o2 {
      MulMonotone(o1 + 1, o2, nrows);
    } else if o2 < o1 {
      MulMonotone(o2 + 1, o1, nrows);
      assert (o2 + 1) * nrows == o2 * nrows + nrows;
    }
  }

  /** The fields after the row label of a line buffer are its data fields. */
  lemma DataFieldsOfLine(line: Bytes)
    requires NoNewline(line)
    ensures FieldEnd(line + [NL], 0) < |line + [NL]|
    ensures Fields(line + [NL], FieldEnd(line + [NL], 0) + 1) == DataFields(line)
  {
    var buf := line + [NL];
    FieldEndInLine(line, 0);
    var e := FieldEnd(buf, 0);
    FieldsOfLine(line, 0);
    FieldsCons(buf, 0, e);
    assert line[0..] == line;
  }

  /** The end of the field of `buffer[..linelen]` that starts at `from`. */
  method FieldEndIn(buffer: array<Byte>, linelen: nat, ghost buf: Bytes, from: nat) returns (e: nat)
    requires from <= linelen <= buffer.Length && buf == buffer[..linelen]
    ensures e == FieldEnd(buf, from)
  {
    e := from;
    while e < linelen && buffer[e] != TAB && buffer[e] != NL
      invariant from <= e <= linelen && FieldEnd(buf, from) == FieldEnd(buf, e)
      decreases linelen - e
    {
      e := e + 1;
    }
  }

  /** One more data field: its setter call, if its column is wanted. */
  lemma CellWritesSnoc(done: seq<Bytes>, f: Bytes, columnMap: seq<int>, nrows: int, rowid: int)
    requires |done| < |columnMap|
    ensures CellWrites(done + [f], columnMap, nrows, rowid) == CellWrites(done, columnMap, nrows, rowid)
      + (if columnMap[|done|] >= 0 then [CellWrite(columnMap[|done|] * nrows + rowid, f)] else [])
  {
    assert (done + [f])[..|done|] == done;
  }

  /** The fields from `p` are `done` and then those from `q`; the field at `q`
      moves into `done`. */
  lemma FieldsShift(buf: Bytes, p: nat, q: nat, next: nat, done: seq<Bytes>)
    requires p <= q < |buf| && Fields(buf, p) == done + Fields(buf, q)
    requires next == var e := FieldEnd(buf, q); if e < |buf| then e + 1 else e
    ensures Fields(buf, p) == (done + [buf[q..FieldEnd(buf, q)]]) + Fields(buf, next)
  {
    var e := FieldEnd(buf, q);
    FieldsStep(buf, q);
    assert done + ([buf[q..e]] + Fields(buf, next)) == (done + [buf[q..e]]) + Fields(buf, next);
  }

  /** The body of the field loop of get_tsv_fields: find the end of the field
      at `fstart`, make the setter call for input column `inputColumn` if it is
      wanted, and step over the terminator. */
  method FieldWrite(buffer: array<Byte>, linelen: nat, ghost buf: Bytes, fstart: nat, inputColumn: nat,
                    columnMap: array<int>, ghost cm: seq<int>, nrows: int, rowid: int)
    returns (next: nat, w: seq<CellWrite>)
    requires fstart < linelen <= buffer.Length && buf == buffer[..linelen]
    requires inputColumn < columnMap.Length && cm == columnMap[..]
    ensures var e := FieldEnd(buf, fstart);
      && next == (if e < |buf| then e + 1 else e)
      && w == if cm[inputColumn] >= 0 then [CellWrite(cm[inputColumn] * nrows + rowid, buf[fstart..e])] else []
  {
    var indexp := FieldEndIn(buffer, linelen, buf, fstart);
    w := [];
    var outputColumn := columnMap[inputColumn];
    if outputColumn >= 0 {
      w := [CellWrite(outputColumn * nrows + rowid, buffer[fstart..indexp])];
      assert buffer[fstart..indexp] == buffer[..linelen][fstart..indexp];
    }
    next := indexp;
    if indexp < linelen {
      next := indexp + 1;
    }
  }

  /** One turn of the field loop of get_tsv_fields keeps its invariant: the
      field at `fstart` joins the fields seen, and its setter call, if any, the
      calls made. */
  lemma SplitStep(buf: Bytes, first: nat, fstart: nat, next: nat, done: seq<Bytes>,
                  writes: seq<CellWrite>, w: seq<CellWrite>, cm: seq<int>, nrows: int, rowid: int)
    requires first <= fstart < |buf| && |done| < |cm|
    requires Fields(buf, first) == done + Fields(buf, fstart)
    requires writes == CellWrites(done, cm, nrows, rowid)
    requires next == var e := FieldEnd(buf, fstart); if e < |buf| then e + 1 else e
    requires w == var f := buf[fstart..FieldEnd(buf, fstart)];
      if cm[|done|] >= 0 then [CellWrite(cm[|done|] * nrows + rowid, f)] else []
    ensures Fields(buf, first) == (done + [buf[fstart..FieldEnd(buf, fstart)]]) + Fields(buf, next)
    ensures writes + w == CellWrites(done + [buf[fstart..FieldEnd(buf, fstart)]], cm, nrows, rowid)
  {
    FieldsShift(buf, first, fstart, next, done);
    CellWritesSnoc(done, buf[fstart..FieldEnd(buf, fstart)], cm, nrows, rowid);
  }

  /** The loop of get_tsv_fields stops after `maxColumn + 1` fields or at the
      end of the line; either way it has seen the wanted fields. */
  lemma WantedSeen(all: seq<Bytes>, done: seq<Bytes>, rest: seq<Bytes>, maxColumn: int)
    requires maxColumn >= -1 && all == done + rest && |done| <= maxColumn + 1
    requires |done| == maxColumn + 1 || rest == []
    ensures Wanted(all, maxColumn) == done
  {
    if rest != [] {
      assert all[..|done|] == done;
    } else {
      assert all == done;
    }
  }

  /** The field loop of get_tsv_fields, from the first data field at `first`:
      the setter calls for the wanted data fields. `buf` and `cm` are the
      contents of the line buffer and of the column map. */
  method WriteFields(buffer: array<Byte>, linelen: nat, ghost buf: Bytes, first: nat, nrows: int, rowid: int,
                     maxColumnWanted: int, columnMap: array<int>, ghost cm: seq<int>)
    returns (writes: seq<CellWrite>)
    requires first <= linelen <= buffer.Length && buf == buffer[..linelen]
    requires -1 <= maxColumnWanted < columnMap.Length && cm == columnMap[..]
    ensures writes == CellWrites(Wanted(Fields(buf, first), maxColumnWanted), cm, nrows, rowid)
  {
    var indexp := first;
    writes := [];
    var inputColumn := 0;
    ghost var done: seq<Bytes> := [];
    while inputColumn <= maxColumnWanted && indexp < linelen
      invariant first <= indexp <= linelen && inputColumn == |done| <= maxColumnWanted + 1
      invariant Fields(buf, first) == done + Fields(buf, indexp)
      invariant writes == CellWrites(done, cm, nrows, rowid)
      decreases linelen - indexp
    {
      var fstart := indexp;
      var w;
      indexp, w := FieldWrite(buffer, linelen, buf, fstart, inputColumn, columnMap, cm, nrows, rowid);
      SplitStep(buf, first, fstart, indexp, done, writes, w, cm, nrows, rowid);
      writes := writes + w;
      done := done + [buf[fstart..FieldEnd(buf, fstart)]];
      inputColumn := inputColumn + 1;
    }
    WantedSeen(Fields(buf, first), done, Fields(buf, indexp), maxColumnWanted);
  }

  /** The scan of get_tsv_fields over a line buffer: skip the row label, then
      make the setter calls for the wanted data fields. */
  method SplitRow(buffer: array<Byte>, linelen: nat, ghost line: Bytes, nrows: int, rowid: int,
                  maxColumnWanted: int, columnMap: array<int>, ghost cm: seq<int>)
    returns (writes: seq<CellWrite>)
    requires NoNewline(line) && linelen <= buffer.Length && buffer[..linelen] == line + [NL]
    requires -1 <= maxColumnWanted < columnMap.Length && cm == columnMap[..]
    ensures writes == CellWrites(Wanted(DataFields(line), maxColumnWanted), cm, nrows, rowid)
  {
    ghost var buf := line + [NL];
    DataFieldsOfLine(line);
    var indexp := SkipLabel(buffer, linelen, buf);
    writes := WriteFields(buffer, linelen, buf, indexp, nrows, rowid, maxColumnWanted, columnMap, cm);
  }

  /** Advance over the row label and its terminator. */
  method SkipLabel(buffer: array<Byte>, linelen: nat, ghost buf: Bytes) returns (indexp: nat)
    requires linelen <= buffer.Length && buf == buffer[..linelen]
    ensures var e := FieldEnd(buf, 0); indexp == if e < |buf| then e + 1 else e
  {
    indexp := 0;
    while indexp < linelen && buffer[indexp] != TAB && buffer[indexp] != NL
      invariant indexp <= linelen && FieldEnd(buf, 0) == FieldEnd(buf, indexp)
      decreases linelen - indexp
    {
      indexp := indexp + 1;
    }
    if indexp < linelen {
      indexp := indexp + 1;
    }
  }

  /** get_tsv_fields: read the line at `rowposn`, skip its row label, and pass
      each wanted data field to the setter at its place in column `columnMap[c]`
      of row `rowid`. Columns past `maxColumnWanted`, columns mapped to -1 and
      columns a short line lacks get no call. */
  method GetTsvFields(input: Bytes, nrows: int, rowid: int, rowposn: int, maxColumnWanted: int,
                      columnMap: array<int>, buffer: array<Byte>)
    returns (writes: seq<CellWrite>, err: Option<Raised>)
    requires -1 <= maxColumnWanted < columnMap.Length && buffer.Length >= 1
    modifies buffer
    ensures err == LineError(input, rowposn, buffer.Length)
    ensures err.None? ==>
      writes == CellWrites(Wanted(DataFields(LineAt(input, rowposn)), maxColumnWanted), columnMap[..], nrows, rowid)
  {
    writes := [];
    var linelen, eof;
    linelen, eof, err := GetTsvLineBuffer(input, rowposn, buffer);
    if err.None? {
      writes := SplitRow(buffer, linelen, LineAt(input, rowposn), nrows, rowid, maxColumnWanted, columnMap, columnMap[..]);
    }
  }

  // ---------------------------------------------------------------------
  // scan_header_line

  /** What `fgets` reads from position `p` with a large enough buffer: the
      bytes through the next NL, or up to the end of the file. */
  function FgetsLine(s: Bytes, p: nat): (b: Bytes)
    requires p <= |s|
  {
    var e := LineEnd(s, p);
    if e < |s| then s[p..e + 1] else s[p..]
  }

  /** The header fields that scan_header_line numbers: all of them, or all but
      the first when the header has as many columns as the first data row (its
      first field then heads the column of row labels). */
  function HeaderPatterns(header: Bytes, rowcols: int): seq<Bytes>
  {
    var fs := SplitTabs(header);
    if |fs| == rowcols then fs[1..] else fs
  }

  /** Each pattern with its number, as the updates scan_header_line makes. */
  function Numbered(fs: seq<Bytes>): (rs: seq<Record>)
    ensures |rs| == |fs|
  {
    seq(|fs|, j requires 0 <= j < |fs| => Record(fs[j], j))
  }

  /** The fields visited so far, less the first when it is skipped. */
  function Kept(done: seq<Bytes>, skipFirst: bool): seq<Bytes>
  {
    if skipFirst && |done| > 0 then done[1..] else done
  }

  /** The update for one more numbered pattern. */
  lemma ApplyNumberedSnoc(es: seq<Entry>, kept: seq<Bytes>, f: Bytes, insertall: bool)
    ensures Apply(es, Numbered(kept + [f]), insertall) ==
      var prev := Apply(es, Numbered(kept), insertall);
      if insertall then Upsert(prev, f, |kept|) else Change(prev, f, |kept|)
  {
    var rs, init := Numbered(kept + [f]), Numbered(kept);
    assert rs[..|kept|] == init by {
      forall j | 0 <= j < |kept|
        ensures rs[j] == init[j]
      {
        assert (kept + [f])[j] == kept[j];
      }
    }
    assert rs[|kept|] == Record(f, |kept|);
  }

  /** A header line buffer has as many columns as the header has fields. */
  lemma HeaderBuffer(header: Bytes)
    requires NoNewline(header)
    ensures CountTabs(header + [NL]) + 1 == |SplitTabs(header)|
    ensures Fields(header + [NL], 0) == SplitTabs(header)
  {
    CountTabsAppend(header, [NL]);
    SplitTabsCount(header);
    FieldsOfLine(header, 0);
    assert header[0..] == header;
  }

  /** The header line, without its NL. */
  function HeaderLine(s: Bytes): Bytes
  {
    s[..LineEnd(s, 0)]
  }

  /** The first data line, without its NL. */
  function FirstRow(s: Bytes): Bytes
    requires LineEnd(s, 0) < |s|
  {
    var p := LineEnd(s, 0) + 1;
    s[p..LineEnd(s, p)]
  }

  /** num_columns of what fgets read counts the fields of the line it holds. */
  lemma FgetsColumns(s: Bytes, p: nat)
    requires p <= |s|
    ensures CountTabs(FgetsLine(s, p)) + 1 == |SplitTabs(s[p..LineEnd(s, p)])|
  {
    var e := LineEnd(s, p);
    SplitTabsCount(s[p..e]);
    if e < |s| {
      assert FgetsLine(s, p) == s[p..e] + [NL];
      CountTabsAppend(s[p..e], [NL]);
    } else {
      assert FgetsLine(s, p) == s[p..e];
    }
  }

  /** The end of the field at `from`, found by walking to its terminator. */
  method FieldEndOf(hdr: Bytes, from: nat) returns (e: nat)
    requires from <= |hdr|
    ensures e == FieldEnd(hdr, from)
  {
    e := from;
    while e < |hdr| && hdr[e] != TAB && hdr[e] != NL
      invariant from <= e <= |hdr| && FieldEnd(hdr, from) == FieldEnd(hdr, e)
      decreases |hdr| - e
    {
      e := e + 1;
    }
  }

  /** One field of the header loop: number it unless it is the first field and
      the header has a column for the row labels, then step over its terminator. */
  method HeaderField(hdr: Bytes, fstart: nat, dht: ValueTab, insertall: bool, skipFirst: bool,
                     numpats: nat, ghost done: seq<Bytes>, ghost es: seq<Entry>)
    returns (next: nat, count: nat)
    requires fstart < |hdr| && dht.Valid()
    requires (fstart == 0 <==> |done| == 0) && numpats == |Kept(done, skipFirst)|
    requires dht.entries == Apply(es, Numbered(Kept(done, skipFirst)), insertall)
    modifies dht
    ensures dht.Valid() && fstart < next
    ensures next == var e := FieldEnd(hdr, fstart); if e < |hdr| then e + 1 else e
    ensures var kept := Kept(done + [hdr[fstart..FieldEnd(hdr, fstart)]], skipFirst);
      count == |kept| && dht.entries == Apply(es, Numbered(kept), insertall)
  {
    next := FieldEndOf(hdr, fstart);
    ghost var f := hdr[fstart..next];
    ghost var kept := Kept(done, skipFirst);
    count := numpats;
    if fstart > 0 || !skipFirst {
      assert Kept(done + [f], skipFirst) == kept + [f];
      ApplyNumberedSnoc(es, kept, f, insertall);
      if insertall {
        dht.InsertStrVal(hdr[fstart..next], numpats);
      } else {
        dht.ChangeStrVal(hdr[fstart..next], numpats);
      }
      count := numpats + 1;
    } else {
      assert Kept(done + [f], skipFirst) == [];
    }
    if next < |hdr| {
      next := next + 1;
    }
  }

  /** The field loop of scan_header_line over the header line buffer `hdr`. */
  method NumberHeader(hdr: Bytes, dht: ValueTab, insertall: bool, skipFirst: bool) returns (numpats: nat)
    requires dht.Valid()
    modifies dht
    ensures dht.Valid()
    ensures var kept := Kept(Fields(hdr, 0), skipFirst);
      numpats == |kept| && dht.entries == Apply(old(dht.entries), Numbered(kept), insertall)
  {
    numpats := 0;
    var indexp := 0;
    ghost var done: seq<Bytes> := [];
    ghost var es := dht.entries;
    while indexp < |hdr|
      invariant indexp <= |hdr| && dht.Valid()
      invariant (indexp == 0 <==> |done| == 0)
      invariant Fields(hdr, 0) == done + Fields(hdr, indexp)
      invariant numpats == |Kept(done, skipFirst)|
      invariant dht.entries == Apply(es, Numbered(Kept(done, skipFirst)), insertall)
      decreases |hdr| - indexp
    {
      var fstart := indexp;
      indexp, numpats := HeaderField(hdr, fstart, dht, insertall, skipFirst, numpats, done, es);
      FieldsShift(hdr, 0, fstart, indexp, done);
      done := done + [hdr[fstart..FieldEnd(hdr, fstart)]];
    }
    assert done + [] == done;
  }

  /** The table after scan_header_line: unchanged without a data line,
      otherwise with the header patterns numbered in. */
  function HeaderTable(input: Bytes, es: seq<Entry>, insertall: bool): seq<Entry>
  {
    if LineEnd(input, 0) + 1 < |input| then
      Apply(es, Numbered(HeaderPatterns(HeaderLine(input), |SplitTabs(FirstRow(input))|)), insertall)
    else es
  }

  /** The error scan_header_line raises: none for a header-only file, and
      otherwise one when the patterns are not one per data column. */
  function HeaderError(input: Bytes): Option<Raised>
  {
    if |input| == 0 then Some(HeaderUnreadable)
    else if LineEnd(input, 0) + 1 >= |input| then None
    else
      var rowcols := |SplitTabs(FirstRow(input))|;
      if |HeaderPatterns(HeaderLine(input), rowcols)| == rowcols - 1 then None
      else Some(PatternCountMismatch)
  }

  /** scan_header_line: number the header's fields in `dht` (inserting them, or
      only changing stored labels), leaving out the first field when the header
      has as many columns as the first data row; fail when the numbered fields
      are not one per data column. */
  method ScanHeaderLine(input: Bytes, dht: ValueTab, insertall: bool) returns (err: Option<Raised>)
    requires dht.Valid()
    modifies dht
    ensures dht.Valid()
    ensures dht.entries == HeaderTable(input, old(dht.entries), insertall)
    ensures err == HeaderError(input)
  {
    if |input| == 0 {
      return Some(HeaderUnreadable);
    }
    var h := LineEnd(input, 0);
    if h + 1 >= |input| {
      return None;
    }
    var rowbuf := FgetsLine(input, h + 1);
    var rowcols := NumColumns(rowbuf);
    FgetsColumns(input, h + 1);
    var hdr := FgetsLine(input, 0);
    var headercols := NumColumns(hdr);
    ghost var header := HeaderLine(input);
    LineEndSpan(input, 0);
    assert hdr == header + [NL];
    HeaderBuffer(header);
    ghost var pats := HeaderPatterns(header, rowcols);
    assert rowcols == |SplitTabs(FirstRow(input))|;
    assert Kept(Fields(hdr, 0), rowcols == headercols) == pats;
    assert HeaderTable(input, dht.entries, insertall) == Apply(dht.entries, Numbered(pats), insertall);
    var numpats := NumberHeader(hdr, dht, insertall, rowcols == headercols);
    assert HeaderError(input) == if |pats| == rowcols - 1 then None else Some(PatternCountMismatch);
    if numpats != rowcols - 1 {
      return Some(PatternCountMismatch);
    }
    return None;
  }

  /** The count rule of scan_header_line: the numbered fields are one per data
      column exactly when the header has a field per column of the first row,
      or one fewer; in both cases pattern `j` heads data column `j`. */
  lemma HeaderCountRule(header: Bytes, row: Bytes)
    ensures var fs, rowcols := SplitTabs(header), |SplitTabs(row)|;
      var pats := HeaderPatterns(header, rowcols);
      && (|pats| == rowcols - 1 <==> |fs| == rowcols || |fs| + 1 == rowcols)
      && (|pats| == rowcols - 1 ==> |pats| == |DataFields(row)|)
      && (|fs| == rowcols ==> forall j :: 0 <= j < |pats| ==> pats[j] == fs[j + 1])
      && (|fs| + 1 == rowcols ==> pats == fs)
  {
  }

  /** After scan_header_line, a header label that does not recur further right
      holds its number: when inserting, or when it was stored beforehand. */
  lemma HeaderLabelValue(es: seq<Entry>, pats: seq<Bytes>, insertall: bool, j: nat)
    requires DistinctKeys(es) && j < |pats|
    requires forall m :: j < m < |pats| ==> pats[m] != pats[j]
    requires !insertall ==> Find(es, pats[j]) >= 0
    ensures ValueOf(Apply(es, Numbered(pats), insertall), pats[j]) == j
  {
    var rs := Numbered(pats);
    assert rs[j] == Record(pats[j], j);
    forall m | j < m < |rs|
      ensures rs[m].key != rs[j].key
    {
      assert rs[m] == Record(pats[m], m);
    }
    ApplyLastWins(es, rs, insertall, j);
  }

  // ---------------------------------------------------------------------
  // getDataFromFile: the map from input columns to output columns

  /** The largest value among the first `n` entries, or -1. */
  function MaxValue(es: seq<Entry>, n: nat): (m: int)
    requires n <= |es|
    ensures m >= -1
  {
    if n == 0 then -1
    else
      var m := MaxValue(es, n - 1);
      if es[n - 1].value > m then es[n - 1].value else m
  }

  /** The order of the last of the first `n` entries whose value is `c`, or -1. */
  function MapEntry(es: seq<Entry>, n: nat, c: int): (o: int)
    requires n <= |es|
    ensures -1 <= o < n
  {
    if n == 0 then -1
    else if es[n - 1].value == c then n - 1
    else MapEntry(es, n - 1, c)
  }

  /** MaxValue bounds every value and, when not -1, is one of them. */
  lemma {:induction false} MaxValueSpec(es: seq<Entry>, n: nat)
    requires n <= |es|
    ensures forall i :: 0 <= i < n ==> es[i].value <= MaxValue(es, n)
    ensures MaxValue(es, n) >= 0 ==> exists i :: 0 <= i < n && es[i].value == MaxValue(es, n)
  {
    if n > 0 {
      MaxValueSpec(es, n - 1);
    }
  }

  /** MapEntry finds the last entry holding `c`, and -1 exactly when none does. */
  lemma {:induction false} MapEntrySpec(es: seq<Entry>, n: nat, c: int)
    requires n <= |es|
    ensures MapEntry(es, n, c) == -1 <==> forall i :: 0 <= i < n ==> es[i].value != c
    ensures MapEntry(es, n, c) >= 0 ==>
      es[MapEntry(es, n, c)].value == c && forall i :: MapEntry(es, n, c) < i < n ==> es[i].value != c
  {
    if n > 0 && es[n - 1].value != c {
      MapEntrySpec(es, n - 1, c);
    }
  }

  /** No two entries share a value of 0 or more. */
  ghost predicate DistinctValues(es: seq<Entry>)
  {
    forall i, j :: 0 <= i < j < |es| && es[i].value >= 0 ==> es[i].value != es[j].value
  }

  /** With distinct values, the map sends each entry's input column back to
      that entry's order: output column `i` is filled from the input column
      its label was found at. */
  lemma ColumnMapInverse(es: seq<Entry>, i: nat)
    requires DistinctValues(es) && i < |es| && es[i].value >= 0
    ensures MapEntry(es, |es|, es[i].value) == i
  {
    var c := es[i].value;
    MapEntrySpec(es, |es|, c);
    var o := MapEntry(es, |es|, c);
    assert es[o].value == es[i].value;
  }

  /** The first two loops of the column map: its size, and every slot -1. */
  method ColumnMapInit(coldht: ValueTab) returns (maxInputColumn: int, columnMap: array<int>)
    ensures maxInputColumn == MaxValue(coldht.entries, |coldht.entries|)
    ensures fresh(columnMap) && columnMap.Length == maxInputColumn + 1
    ensures forall c :: 0 <= c < columnMap.Length ==> columnMap[c] == -1
  {
    ghost var es := coldht.entries;
    maxInputColumn := -1;
    var i := 0;
    while i < |coldht.entries|
      invariant i <= |es| && maxInputColumn == MaxValue(es, i)
    {
      var inputColumn := coldht.entries[i].value;
      if inputColumn > maxInputColumn {
        maxInputColumn := inputColumn;
      }
      i := i + 1;
    }
    columnMap := new int[maxInputColumn + 1];
    var c := 0;
    while c <= maxInputColumn
      invariant c <= maxInputColumn + 1
      invariant forall k :: 0 <= k < c ==> columnMap[k] == -1
    {
      columnMap[c] := -1;
      c := c + 1;
    }
  }

  /** The column map of getDataFromFile: slot `c` holds the order of the label
      found at input column `c`, or -1 when no wanted label is there; it is
      just long enough for the largest input column found. */
  method BuildColumnMap(coldht: ValueTab) returns (maxInputColumn: int, columnMap: array<int>)
    ensures var es := coldht.entries;
      && maxInputColumn == MaxValue(es, |es|)
      && fresh(columnMap) && columnMap.Length == maxInputColumn + 1
      && forall c :: 0 <= c < columnMap.Length ==> columnMap[c] == MapEntry(es, |es|, c)
  {
    maxInputColumn, columnMap := ColumnMapInit(coldht);
    ghost var es := coldht.entries;
    MaxValueSpec(es, |es|);
    var i := 0;
    while i < |coldht.entries|
      invariant i <= |es|
      invariant forall c :: 0 <= c < columnMap.Length ==> columnMap[c] == MapEntry(es, i, c)
    {
      var inputColumn := coldht.entries[i].value;
      if inputColumn >= 0 {
        columnMap[inputColumn] := i;
      }
      i := i + 1;
    }
  }

  /** Values below `n`, no two alike among those of 0 or more. */
  ghost predicate NumberedBelow(es: seq<Entry>, n: int)
  {
    DistinctValues(es) && forall i :: 0 <= i < |es| ==> es[i].value < n
  }

  /** Storing the next number `n` for one label keeps the numbers distinct. */
  lemma StoreNextNumber(prev: seq<Entry>, k: Bytes, n: nat, insertall: bool)
    requires NumberedBelow(prev, n)
    ensures NumberedBelow(if insertall then Upsert(prev, k, n) else Change(prev, k, n), n + 1)
  {
    var r := if insertall then Upsert(prev, k, n) else Change(prev, k, n);
    var at := Find(prev, k);
    if at >= 0 {
      assert r == prev[at := Entry(k, n)];
    } else if insertall {
      assert r == prev + [Entry(k, n)];
    } else {
      assert r == prev;
    }
    assert forall i :: 0 <= i < |r| ==> r[i].value == n || (i < |prev| && r[i] == prev[i]);
  }

  /** Numbering labels 0, 1, ... into a table whose values are all negative
      leaves each number with at most one label, all below the count. */
  lemma {:induction false} ApplyNumberedValues(es: seq<Entry>, recs: seq<Record>, insertall: bool)
    requires forall i :: 0 <= i < |es| ==> es[i].value < 0
    requires forall m :: 0 <= m < |recs| ==> recs[m].offset == m
    ensures NumberedBelow(Apply(es, recs, insertall), |recs|)
    decreases |recs|
  {
    if |recs| > 0 {
      var n := |recs| - 1;
      var init := recs[..n];
      assert forall m :: 0 <= m < |init| ==> init[m] == recs[m];
      ApplyNumberedValues(es, init, insertall);
      StoreNextNumber(Apply(es, init, insertall), recs[n].key, n, insertall);
    }
  }

  // ---------------------------------------------------------------------
  // getDataFromFile: the wanted rows, in file order

  /** rowInfo_t: where a wanted row starts in the data file, and its row in
      the result. */
  datatype RowInfo = RowInfo(rowPosn: int, outputRow: int)

  /** compare_rowInfo_t: negative, zero or positive as `a`'s byte offset is
      below, equal to or above `b`'s. */
  function CompareRowInfo(a: RowInfo, b: RowInfo): (r: int)
    ensures -1 <= r <= 1
  {
    if a.rowPosn < b.rowPosn then -1
    else if a.rowPosn > b.rowPosn then 1
    else 0
  }

  /** The comparison is a total preorder on byte offsets, as qsort needs. */
  lemma CompareRowInfoOrder(a: RowInfo, b: RowInfo, c: RowInfo)
    ensures CompareRowInfo(a, b) <= 0 <==> a.rowPosn <= b.rowPosn
    ensures CompareRowInfo(a, b) == 0 <==> a.rowPosn == b.rowPosn
    ensures CompareRowInfo(a, b) < 0 <==> CompareRowInfo(b, a) > 0
    ensures CompareRowInfo(a, b) <= 0 && CompareRowInfo(b, c) <= 0 ==> CompareRowInfo(a, c) <= 0
  {
  }

  /** Rows in nondecreasing byte offset. */
  ghost predicate InFileOrder(rs: seq<RowInfo>)
  {
    forall i, j :: 0 <= i < j < |rs| ==> CompareRowInfo(rs[i], rs[j]) <= 0
  }

  /** The wanted rows among the first `n` entries of the row table, in table
      order: those with an offset, each with its order as its result row. */
  function WantedRows(es: seq<Entry>, n: nat): seq<RowInfo>
    requires n <= |es|
  {
    if n == 0 then []
    else
      var prev := WantedRows(es, n - 1);
      if es[n - 1].value >= 0 then prev + [RowInfo(es[n - 1].value, n - 1)] else prev
  }

  /** The wanted rows are the entries that do not hold -1, when no value is
      below -1; each is an entry's offset with that entry's order. */
  lemma {:induction false} WantedRowsSpec(es: seq<Entry>, n: nat)
    requires n <= |es| && NoneBelowMinusOne(es)
    ensures |WantedRows(es, n)| == n - CountEq(es[..n], -1)
    ensures forall k :: 0 <= k < |WantedRows(es, n)| ==>
      var r := WantedRows(es, n)[k];
      0 <= r.outputRow < n && r.rowPosn == es[r.outputRow].value >= 0
  {
    if n > 0 {
      WantedRowsSpec(es, n - 1);
      assert es[..n][..n - 1] == es[..n - 1];
    }
  }

  /** Looking at more entries only adds rows at the end. */
  lemma {:induction false} WantedRowsPrefix(es: seq<Entry>, i: nat, n: nat)
    requires i <= n <= |es|
    ensures |WantedRows(es, i)| <= |WantedRows(es, n)|
    ensures WantedRows(es, n)[..|WantedRows(es, i)|] == WantedRows(es, i)
  {
    if i < n {
      WantedRowsPrefix(es, i, n - 1);
      var a, b := WantedRows(es, i), WantedRows(es, n - 1);
      assert WantedRows(es, n)[..|b|] == b;
      assert b[..|a|] == a;
    }
  }

  /** The row loop of getDataFromFile: walk the row table in order, copying
      each entry into the next free slot and keeping it when it has an offset,
      until `rowsWanted` rows are kept. */
  method CollectRows(rowdht: ValueTab, rowsWanted: nat) returns (rowInfo: array<RowInfo>)
    requires rowsWanted == |rowdht.entries| - CountEq(rowdht.entries, -1)
    requires NoneBelowMinusOne(rowdht.entries)
    ensures fresh(rowInfo) && rowInfo[..] == WantedRows(rowdht.entries, |rowdht.entries|)
  {
    ghost var es := rowdht.entries;
    WantedRowsSpec(es, |es|);
    assert es[..|es|] == es;
    rowInfo := new RowInfo[rowsWanted];
    var nrow := 0;
    var i := 0;
    while nrow < rowsWanted && i < |rowdht.entries|
      invariant i <= |es| && nrow <= rowsWanted
      invariant rowInfo[..nrow] == WantedRows(es, i)
    {
      rowInfo[nrow] := RowInfo(rowdht.entries[i].value, i);
      if rowdht.entries[i].value >= 0 {
        nrow := nrow + 1;
        assert rowInfo[..nrow] == rowInfo[..nrow - 1] + [rowInfo[nrow - 1]];
      }
      i := i + 1;
    }
    WantedRowsPrefix(es, i, |es|);
    assert rowInfo[..] == rowInfo[..nrow];
  }

  /** The first `n` rows are in nondecreasing byte offset. */
  ghost predicate SortedPrefix(s: seq<RowInfo>, n: nat)
  {
    forall k, l :: 0 <= k < l < n && l < |s| ==> s[k].rowPosn <= s[l].rowPosn
  }

  /** Midway through inserting row `i`, now at `j`: the other rows up to `i`
      are in order, and the moving row is no later than those after it and
      no earlier than those before them. */
  ghost predicate Inserting(s: seq<RowInfo>, i: nat, j: nat)
  {
    && j <= i < |s|
    && (forall k, l :: 0 <= k < l <= i && k != j && l != j ==> s[k].rowPosn <= s[l].rowPosn)
    && (forall l :: j < l <= i ==> s[j].rowPosn <= s[l].rowPosn)
    && (forall k, l :: 0 <= k < j < l <= i ==> s[k].rowPosn <= s[l].rowPosn)
  }

  /** Swapping the moving row with a larger left neighbour keeps the shape. */
  lemma InsertSwap(s: seq<RowInfo>, i: nat, j: nat)
    requires Inserting(s, i, j) && 0 < j && s[j - 1].rowPosn > s[j].rowPosn
    ensures Inserting(s[j - 1 := s[j]][j := s[j - 1]], i, j - 1)
  {
    var t := s[j - 1 := s[j]][j := s[j - 1]];
    assert t[j - 1] == s[j] && t[j] == s[j - 1];
    assert forall m :: 0 <= m < |s| && m != j - 1 && m != j ==> t[m] == s[m];
    forall k, l | 0 <= k < l <= i && k != j - 1 && l != j - 1
      ensures t[k].rowPosn <= t[l].rowPosn
    {
      if l == j {
        assert s[k].rowPosn <= s[j - 1].rowPosn;
      } else if k == j {
        assert s[j - 1].rowPosn <= s[l].rowPosn;
      }
    }
    forall k, l | 0 <= k < j - 1 < l <= i
      ensures t[k].rowPosn <= t[l].rowPosn
    {
      if l == j {
        assert s[k].rowPosn <= s[j - 1].rowPosn;
      }
    }
  }

  /** Swapping two neighbours keeps the rows. */
  lemma SwapKeepsRows(s: seq<RowInfo>, j: nat)
    requires 0 < j < |s|
    ensures multiset(s[j - 1 := s[j]][j := s[j - 1]]) == multiset(s)
  {
    assert multiset(s[j - 1 := s[j]]) == multiset(s) - multiset{s[j - 1]} + multiset{s[j]};
  }

  /** Once the left neighbour is no larger, the rows through `i` are sorted. */
  lemma InsertDone(s: seq<RowInfo>, i: nat, j: nat)
    requires Inserting(s, i, j) && (j == 0 || s[j - 1].rowPosn <= s[j].rowPosn)
    ensures SortedPrefix(s, i + 1)
  {
    forall k, l | 0 <= k < l < i + 1 && l < |s|
      ensures s[k].rowPosn <= s[l].rowPosn
    {
      if l == j && k < j - 1 {
        assert s[k].rowPosn <= s[j - 1].rowPosn;
      }
    }
  }

  /** One insertion step: `a[..i]` is in file order; move `a[i]` down past
      every row with a larger offset, swapping neighbours. */
  method InsertRow(a: array<RowInfo>, i: nat)
    requires i < a.Length && SortedPrefix(a[..], i)
    modifies a
    ensures SortedPrefix(a[..], i + 1)
    ensures multiset(a[..]) == multiset(old(a[..]))
  {
    var j: nat := i;
    while j > 0 && a[j - 1].rowPosn > a[j].rowPosn
      invariant Inserting(a[..], i, j)
      invariant multiset(a[..]) == multiset(old(a[..]))
    {
      ghost var s := a[..];
      InsertSwap(s, i, j);
      SwapKeepsRows(s, j);
      a[j - 1], a[j] := a[j], a[j - 1];
      assert a[..] == s[j - 1 := s[j]][j := s[j - 1]];
      j := j - 1;
    }
    InsertDone(a[..], i, j);
  }

  /** The qsort call of getDataFromFile: the rows end up in file order, and are
      the same rows. */
  method SortRows(a: array<RowInfo>)
    modifies a
    ensures InFileOrder(a[..])
    ensures multiset(a[..]) == multiset(old(a[..]))
  {
    var i := 0;
    while i < a.Length
      invariant i <= a.Length && SortedPrefix(a[..], i)
      invariant multiset(a[..]) == multiset(old(a[..]))
    {
      InsertRow(a, i);
      i := i + 1;
    }
  }

  /** The setter calls for one wanted row. */
  function RowWrites(input: Bytes, r: RowInfo, nrows: int, maxColumnWanted: int, columnMap: seq<int>): seq<CellWrite>
    requires r.rowPosn >= 0 && -1 <= maxColumnWanted < |columnMap|
  {
    CellWrites(Wanted(DataFields(LineAt(input, r.rowPosn)), maxColumnWanted), columnMap, nrows, r.outputRow)
  }

  /** The setter calls for the rows, one row after another. */
  function AllWrites(input: Bytes, rows: seq<RowInfo>, nrows: int, maxColumnWanted: int, columnMap: seq<int>): seq<CellWrite>
    requires forall k :: 0 <= k < |rows| ==> rows[k].rowPosn >= 0
    requires -1 <= maxColumnWanted < |columnMap|
  {
    if |rows| == 0 then []
    else
      var n := |rows| - 1;
      AllWrites(input, rows[..n], nrows, maxColumnWanted, columnMap)
        + RowWrites(input, rows[n], nrows, maxColumnWanted, columnMap)
  }

  /** Every row's line fits the line buffer. */
  ghost predicate RowsFit(input: Bytes, rows: seq<RowInfo>, size: nat)
    requires forall k :: 0 <= k < |rows| ==> rows[k].rowPosn >= 0
  {
    forall k :: 0 <= k < |rows| ==> |LineAt(input, rows[k].rowPosn)| < size
  }

  /** The last loop of getDataFromFile: read each row in turn into the result;
      a line too long for the buffer abandons the request. */
  method ReadRows(input: Bytes, nrows: int, rowInfo: array<RowInfo>, maxInputColumn: int,
                  columnMap: array<int>, buffer: array<Byte>)
    returns (writes: seq<CellWrite>, err: Option<Raised>)
    requires forall k :: 0 <= k < rowInfo.Length ==> rowInfo[k].rowPosn >= 0
    requires -1 <= maxInputColumn < columnMap.Length && buffer.Length >= 1
    modifies buffer
    ensures err.None? <==> RowsFit(input, rowInfo[..], buffer.Length)
    ensures err.Some? ==> err == Some(LineTooLong)
    ensures err.None? ==> writes == AllWrites(input, rowInfo[..], nrows, maxInputColumn, columnMap[..])
  {
    writes := [];
    err := None;
    ghost var rows := rowInfo[..];
    ghost var cm := columnMap[..];
    var nrow := 0;
    while nrow < rowInfo.Length
      invariant nrow <= rowInfo.Length && rowInfo[..] == rows && columnMap[..] == cm && err.None?
      invariant RowsFit(input, rows[..nrow], buffer.Length)
      invariant writes == AllWrites(input, rows[..nrow], nrows, maxInputColumn, cm)
    {
      var more;
      more, err := GetTsvFields(input, nrows, rowInfo[nrow].outputRow, rowInfo[nrow].rowPosn,
                                maxInputColumn, columnMap, buffer);
      if err.Some? {
        assert |LineAt(input, rows[nrow].rowPosn)| >= buffer.Length;
        return;
      }
      assert rows[..nrow + 1][..nrow] == rows[..nrow];
      writes := writes + more;
      nrow := nrow + 1;
    }
    assert rows[..nrow] == rows;
  }

  // ---------------------------------------------------------------------
  // getDataFromFile

  /** The row table after `setAllValues(rowdht, -1)` and scan_index_file
      with changes only: each wanted label holds its line's offset, or -1. */
  function RowTable(es: seq<Entry>, index: Bytes): seq<Entry>
  {
    Apply(Reset(es, -1), Scan(index, 0).recs, false)
  }

  /** The column table after `setAllValues(coldht, -1)` and scan_header_line
      with changes only: each wanted label holds its input column, or -1. */
  function ColumnTable(es: seq<Entry>, input: Bytes): seq<Entry>
  {
    HeaderTable(input, Reset(es, -1), false)
  }

  /** The column map as a sequence. */
  function ColumnMap(es: seq<Entry>): (cm: seq<int>)
    ensures |cm| == MaxValue(es, |es|) + 1
  {
    seq(MaxValue(es, |es|) + 1, c requires 0 <= c <= MaxValue(es, |es|) => MapEntry(es, |es|, c))
  }

  /** No value below -1: every label holds an offset or -1. */
  ghost predicate NoneBelowMinusOne(es: seq<Entry>)
  {
    forall i :: 0 <= i < |es| ==> es[i].value >= -1
  }

  /** Index updates store offsets, so no value drops below -1. */
  lemma {:induction false} ApplyKeepsAbove(es: seq<Entry>, recs: seq<Record>, insertall: bool)
    requires NoneBelowMinusOne(es)
    ensures NoneBelowMinusOne(Apply(es, recs, insertall))
    decreases |recs|
  {
    if |recs| > 0 {
      var prev := Apply(es, recs[..|recs| - 1], insertall);
      ApplyKeepsAbove(es, recs[..|recs| - 1], insertall);
      var rec := recs[|recs| - 1];
      var at := Find(prev, rec.key);
      var e := Entry(rec.key, rec.offset);
      if at >= 0 {
        var next := prev[at := e];
        assert forall i :: 0 <= i < |next| ==> next[i].value >= -1;
      } else {
        var next := prev + [e];
        assert forall i :: 0 <= i < |next| ==> next[i].value >= -1;
      }
    }
  }

  /** A permutation of the wanted rows holds only rows with an offset. */
  lemma RowsPlaced(rows: seq<RowInfo>, es: seq<Entry>)
    requires NoneBelowMinusOne(es)
    requires multiset(rows) == multiset(WantedRows(es, |es|))
    ensures forall k :: 0 <= k < |rows| ==> rows[k].rowPosn >= 0
  {
    var ws := WantedRows(es, |es|);
    WantedRowsSpec(es, |es|);
    assert forall r :: r in ws ==> r.rowPosn >= 0;
    assert forall k :: 0 <= k < |rows| ==> rows[k] in multiset(ws);
  }

  /** getDataFromFile: find the wanted rows through the index and the wanted
      columns through the header, then read the rows in file order, sending
      each wanted cell to the setter. A file that has none of the wanted rows
      or columns, or whose index does not scan cleanly, is skipped. */
  method GetDataFromFile(nrows: int, index: Bytes, input: Bytes, rowdht: ValueTab, coldht: ValueTab,
                         buffer: array<Byte>)
    returns (writes: seq<CellWrite>, skipped: bool, err: Option<Raised>, ghost rows: seq<RowInfo>)
    requires rowdht != coldht && rowdht.Valid() && coldht.Valid() && buffer.Length >= 1
    modifies rowdht, coldht, buffer
    ensures rowdht.Valid() && coldht.Valid()
    ensures rowdht.entries == RowTable(old(rowdht.entries), index)
    ensures var rt, ct := RowTable(old(rowdht.entries), index), ColumnTable(old(coldht.entries), input);
      if Scan(index, 0).status != OK || CountEq(rt, -1) == |rt| then
        skipped && err.None? && writes == [] && coldht.entries == old(coldht.entries)
      else if HeaderError(input).Some? then
        err == HeaderError(input) && coldht.entries == ct
      else if CountEq(ct, -1) == |ct| then
        skipped && err.None? && writes == [] && coldht.entries == ct
      else
        && !skipped && coldht.entries == ct
        && InFileOrder(rows) && multiset(rows) == multiset(WantedRows(rt, |rt|))
        && (forall k :: 0 <= k < |rows| ==> rows[k].rowPosn >= 0)
        && (err.None? <==> RowsFit(input, rows, buffer.Length))
        && (err.Some? ==> err == Some(LineTooLong))
        && (err.None? ==> writes == AllWrites(input, rows, nrows, MaxValue(ct, |ct|), ColumnMap(ct)))
  {
    writes, skipped, err, rows := [], true, None, [];
    rowdht.SetAllValues(-1);
    ResetSpec(old(rowdht.entries), -1);
    var res := ScanIndexFile(index, rowdht, false);
    if res != OK {
      return;
    }
    var rowsWanted := rowdht.CountNotValues(-1);
    if rowsWanted == 0 {
      return;
    }
    coldht.SetAllValues(-1);
    err := ScanHeaderLine(input, coldht, false);
    if err.Some? {
      return;
    }
    var found := coldht.CountNotValues(-1);
    if found == 0 {
      return;
    }
    skipped := false;
    ApplyKeepsAbove(Reset(old(rowdht.entries), -1), Scan(index, 0).recs, false);
    writes, err, rows := ReadWanted(nrows, input, rowdht, coldht, rowsWanted, buffer);
  }

  /** The second half of getDataFromFile, once both tables are filled: build
      the column map, collect the wanted rows, sort them into file order and
      read them. */
  method ReadWanted(nrows: int, input: Bytes, rowdht: ValueTab, coldht: ValueTab, rowsWanted: nat,
                    buffer: array<Byte>)
    returns (writes: seq<CellWrite>, err: Option<Raised>, ghost rows: seq<RowInfo>)
    requires NoneBelowMinusOne(rowdht.entries) && buffer.Length >= 1
    requires rowsWanted == |rowdht.entries| - CountEq(rowdht.entries, -1)
    modifies buffer
    ensures var rt, ct := rowdht.entries, coldht.entries;
      && InFileOrder(rows) && multiset(rows) == multiset(WantedRows(rt, |rt|))
      && (forall k :: 0 <= k < |rows| ==> rows[k].rowPosn >= 0)
      && (err.None? <==> RowsFit(input, rows, buffer.Length))
      && (err.Some? ==> err == Some(LineTooLong))
      && (err.None? ==> writes == AllWrites(input, rows, nrows, MaxValue(ct, |ct|), ColumnMap(ct)))
  {
    var maxInputColumn, columnMap := BuildColumnMap(coldht);
    assert columnMap[..] == ColumnMap(coldht.entries);
    var rowInfo := CollectRows(rowdht, rowsWanted);
    SortRows(rowInfo);
    rows := rowInfo[..];
    RowsPlaced(rows, rowdht.entries);
    writes, err := ReadRows(input, nrows, rowInfo, maxInputColumn, columnMap, buffer);
  }

  // ---------------------------------------------------------------------
  // The match rules of tsvGetLines and tsvGetData

  /** tsvGetLines fails when no pattern was found, or when every pattern was
      required and the found count differs from the pattern count. */
  predicate LinesMatchFails(nresult: int, npattern: int, findany: bool)
  {
    nresult == 0 || (!findany && nresult != npattern)
  }

  /** tsvGetData's rule, for rows and for columns alike: nothing found is an
      error; so is a partial match when patterns were given and all of them
      are required. With no patterns, every label found counts. */
  function DataMatchError(nresult: int, npattern: int, findany: bool): Option<Raised>
  {
    if nresult == 0 then Some(NoMatch)
    else if nresult != npattern && npattern > 0 && !findany then Some(NotAllMatched)
    else None
  }

  /** With patterns given, the two rules reject the same counts; without
      patterns tsvGetData only rejects an empty result. */
  lemma MatchRulesAgree(nresult: int, npattern: int, findany: bool)
    ensures npattern > 0 ==> (LinesMatchFails(nresult, npattern, findany) <==> DataMatchError(nresult, npattern, findany).Some?)
    ensures npattern == 0 ==> (DataMatchError(nresult, npattern, findany).Some? <==> nresult == 0)
  {
  }

  /** The last record that names `k`, given one that does. */
  lemma LastNaming(recs: seq<Record>, k: Bytes, m0: nat) returns (m: nat)
    requires m0 < |recs| && recs[m0].key == k
    ensures m0 <= m < |recs| && recs[m].key == k
    ensures forall j :: m < j < |recs| ==> recs[j].key != k
  {
    m := m0;
    var j := m0 + 1;
    while j < |recs|
      invariant m0 <= m < j <= |recs| && recs[m].key == k
      invariant forall i :: m < i < j ==> recs[i].key != k
    {
      if recs[j].key == k {
        m := j;
      }
      j := j + 1;
    }
  }

  /** Scanning an index by changes only into a table of -1 values: a label
      ends up with a value other than -1 exactly when it was in the table and
      some index record names it. */
  lemma FoundExactly(es: seq<Entry>, recs: seq<Record>, k: Bytes)
    requires DistinctKeys(es) && forall i :: 0 <= i < |es| ==> es[i].value == -1
    ensures ValueOf(Apply(es, recs, false), k) != -1 <==>
      Find(es, k) >= 0 && exists m :: 0 <= m < |recs| && recs[m].key == k
  {
    var r := Apply(es, recs, false);
    ApplyValid(es, recs, false);
    FindSameKeys(r, es, k);
    if m0 :| 0 <= m0 < |recs| && recs[m0].key == k {
      if Find(es, k) >= 0 {
        var m := LastNaming(recs, k, m0);
        ApplyLastWins(es, recs, false, m);
      }
    } else {
      ApplyUntouched(es, recs, false, k);
    }
  }

  /** The pattern table of tsvGetLines: each pattern inserted with -1. */
  function Seeded(patterns: seq<Bytes>): seq<Entry>
  {
    if |patterns| == 0 then []
    else
      var n := |patterns| - 1;
      Upsert(Seeded(patterns[..n]), patterns[n], -1)
  }

  /** Every label still holds -1. */
  ghost predicate AllUnfound(es: seq<Entry>)
  {
    forall i :: 0 <= i < |es| ==> es[i].value == -1
  }

  /** Inserting a label with -1 keeps every label unfound. */
  lemma UpsertUnfound(es: seq<Entry>, key: Bytes)
    requires AllUnfound(es)
    ensures AllUnfound(Upsert(es, key, -1))
  {
    var at := Find(es, key);
    var e := Entry(key, -1);
    if at >= 0 {
      var next := es[at := e];
      assert forall i :: 0 <= i < |next| ==> next[i].value == -1;
    } else {
      var next := es + [e];
      assert forall i :: 0 <= i < |next| ==> next[i].value == -1;
    }
  }

  /** The seeded table has distinct labels, each with -1. */
  lemma {:induction false} SeededValues(patterns: seq<Bytes>)
    ensures DistinctKeys(Seeded(patterns)) && AllUnfound(Seeded(patterns))
  {
    if |patterns| > 0 {
      var n := |patterns| - 1;
      var prev := Seeded(patterns[..n]);
      SeededValues(patterns[..n]);
      assert Seeded(patterns) == Upsert(prev, patterns[n], -1);
      UpsertSpec(prev, patterns[n], -1);
      UpsertUnfound(prev, patterns[n]);
    }
  }

  /** A label is in the seeded table exactly when it is one of the patterns. */
  lemma {:induction false} SeededFind(patterns: seq<Bytes>, k: Bytes)
    ensures Find(Seeded(patterns), k) >= 0 <==> k in patterns
  {
    if |patterns| > 0 {
      var n := |patterns| - 1;
      var prev := Seeded(patterns[..n]);
      SeededFind(patterns[..n], k);
      assert (k in patterns) == (k in patterns[..n] || k == patterns[n]) by {
        assert patterns == patterns[..n] + [patterns[n]];
      }
      var es := Upsert(prev, patterns[n], -1);
      assert Seeded(patterns) == es;
      if k == patterns[n] {
        var at := Find(prev, k);
        if at >= 0 {
          assert es[at].key == k;
        } else {
          assert es[|prev|].key == k;
        }
      } else {
        UpsertOther(prev, patterns[n], -1, k);
      }
    }
  }

  /** The first lines of tsvGetLines: build the pattern table, scan the index
      into it by changes only, and apply the match rule to the count of
      patterns found. */
  method MatchPatterns(index: Bytes, patterns: seq<Bytes>, findany: bool)
    returns (dht: ValueTab, nresult: int, err: Option<Raised>)
    ensures dht.Valid()
    ensures |patterns| == 0 ==> err == Some(NoPatterns)
    ensures |patterns| > 0 ==>
      var table := Apply(Seeded(patterns), Scan(index, 0).recs, false);
      if Scan(index, 0).status != OK then err == Some(IndexScanFailed)
      else
        && dht.entries == table
        && nresult == |patterns| - CountEq(table, -1)
        && err == if LinesMatchFails(nresult, |patterns|, findany) then Some(NoMatch) else None
  {
    dht := new ValueTab();
    nresult := 0;
    if |patterns| == 0 {
      return dht, 0, Some(NoPatterns);
    }
    var i := 0;
    while i < |patterns|
      invariant i <= |patterns| && dht.Valid() && dht.entries == Seeded(patterns[..i])
    {
      assert patterns[..i + 1][..i] == patterns[..i];
      dht.InsertStrVal(patterns[i], -1);
      i := i + 1;
    }
    assert patterns[..i] == patterns;
    var res := ScanIndexFile(index, dht, false);
    if res != OK {
      return dht, 0, Some(IndexScanFailed);
    }
    var unfound := dht.CountValues(-1);
    nresult := |patterns| - unfound;
    err := if LinesMatchFails(nresult, |patterns|, findany) then Some(NoMatch) else None;
  }

  // ---------------------------------------------------------------------
  // tsvGetLines: reading the lines of the labels found

  /** The label table of tsvGetLines after the index scan. */
  function LabelTable(index: Bytes, patterns: seq<Bytes>): seq<Entry>
  {
    Apply(Seeded(patterns), Scan(index, 0).recs, false)
  }

  /** tsvGetLines' found count: the patterns less the labels still at -1. */
  function FoundCount(index: Bytes, patterns: seq<Bytes>): int
  {
    |patterns| - CountEq(LabelTable(index, patterns), -1)
  }

  /** The position stored for each label, in table order. */
  function Positions(es: seq<Entry>): (ps: seq<int>)
    ensures |ps| == |es|
  {
    seq(|es|, i requires 0 <= i < |es| => es[i].value)
  }

  /** The positions of the labels that were found, in table order. */
  function FoundPositions(es: seq<Entry>): seq<int>
  {
    var ws := WantedRows(es, |es|);
    seq(|ws|, k requires 0 <= k < |ws| => ws[k].rowPosn)
  }

  /** The error reading the lines at `ps` in turn stops at, if any. */
  function FirstLineError(input: Bytes, ps: seq<int>, size: nat): Option<Raised>
  {
    if |ps| == 0 then None
    else
      var e := FirstLineError(input, ps[..|ps| - 1], size);
      if e.Some? then e else LineError(input, ps[|ps| - 1], size)
  }

  /** Reading the lines stops with an error exactly when some line cannot be
      read: a negative position, or a line too long for the buffer. */
  lemma {:induction false} FirstLineErrorSpec(input: Bytes, ps: seq<int>, size: nat)
    ensures FirstLineError(input, ps, size).None? <==> forall k :: 0 <= k < |ps| ==> LineError(input, ps[k], size).None?
  {
    if |ps| > 0 {
      var n := |ps| - 1;
      FirstLineErrorSpec(input, ps[..n], size);
      assert forall k :: 0 <= k < n ==> ps[..n][k] == ps[k];
    }
  }

  /** The lines at `ps`, each with its NL, as get_tsv_line_buffer_SEXP returns
      them. */
  method ReadLines(input: Bytes, ps: seq<int>, buffer: array<Byte>) returns (lines: seq<Bytes>, err: Option<Raised>)
    requires buffer.Length >= 1
    modifies buffer
    ensures err == FirstLineError(input, ps, buffer.Length)
    ensures err.None? ==> |lines| == |ps|
    ensures err.None? ==> forall k :: 0 <= k < |ps| ==> ps[k] >= 0 && lines[k] == LineAt(input, ps[k]) + [NL]
  {
    lines := [];
    var i := 0;
    while i < |ps|
      invariant i <= |ps| && |lines| == i
      invariant FirstLineError(input, ps[..i], buffer.Length) == None
      invariant forall k :: 0 <= k < i ==> ps[k] >= 0 && lines[k] == LineAt(input, ps[k]) + [NL]
    {
      var len, eof, e := GetTsvLineBuffer(input, ps[i], buffer);
      assert ps[..i + 1][..i] == ps[..i];
      if e.Some? {
        FirstLineErrorPrefix(input, ps, i + 1, buffer.Length);
        return lines, e;
      }
      lines := lines + [buffer[..len]];
      i := i + 1;
    }
    assert ps[..i] == ps;
    err := None;
  }

  /** When every line at a non-negative position fits the buffer, reading
      positions that include a negative one stops with the seek error. */
  lemma {:induction false} FirstLineErrorSeek(input: Bytes, ps: seq<int>, size: nat)
    requires exists k :: 0 <= k < |ps| && ps[k] < 0
    requires forall k :: 0 <= k < |ps| && ps[k] >= 0 ==> |LineAt(input, ps[k])| < size
    ensures FirstLineError(input, ps, size) == Some(SeekError)
  {
    var n := |ps| - 1;
    var pre := ps[..n];
    assert forall k :: 0 <= k < n ==> pre[k] == ps[k];
    if exists k :: 0 <= k < n && pre[k] < 0 {
      FirstLineErrorSeek(input, pre, size);
    } else {
      FirstLineErrorSpec(input, pre, size);
    }
  }

  /** An error in a prefix is the error of the whole. */
  lemma {:induction false} FirstLineErrorPrefix(input: Bytes, ps: seq<int>, n: nat, size: nat)
    requires n <= |ps| && FirstLineError(input, ps[..n], size).Some?
    ensures FirstLineError(input, ps, size) == FirstLineError(input, ps[..n], size)
    decreases |ps|
  {
    if n < |ps| {
      var m := |ps| - 1;
      assert ps[..m][..n] == ps[..n];
      FirstLineErrorPrefix(input, ps[..m], n, size);
    } else {
      assert ps[..n] == ps;
    }
  }

  /** tsvGetLines as written: once the match rule passes, it reads the header
      and then the line at the position of every label in the table, also
      the -1 of a label the index does not name. */
  method TsvGetLinesAsWritten(input: Bytes, index: Bytes, patterns: seq<Bytes>, findany: bool, buffer: array<Byte>)
    returns (lines: seq<Bytes>, err: Option<Raised>)
    requires buffer.Length >= 1
    modifies buffer
    ensures |patterns| == 0 ==> err == Some(NoPatterns)
    ensures |patterns| > 0 && Scan(index, 0).status != OK ==> err == Some(IndexScanFailed)
    ensures |patterns| > 0 && Scan(index, 0).status == OK ==>
      if LinesMatchFails(FoundCount(index, patterns), |patterns|, findany) then err == Some(NoMatch)
      else
        var ps := [0] + Positions(LabelTable(index, patterns));
        && err == FirstLineError(input, ps, buffer.Length)
        && (err.None? ==> |lines| == |ps| && forall k :: 0 <= k < |ps| ==> ps[k] >= 0 && lines[k] == LineAt(input, ps[k]) + [NL])
  {
    lines := [];
    var dht, nresult;
    dht, nresult, err := MatchPatterns(index, patterns, findany);
    if err.Some? {
      return;
    }
    var ps := [0] + Positions(dht.entries);
    lines, err := ReadLines(input, ps, buffer);
  }

  /** tsvGetLines reading only the labels that were found, as getDataFromFile
      does for rows: the header, then one line per label found. */
  method TsvGetLines(input: Bytes, index: Bytes, patterns: seq<Bytes>, findany: bool, buffer: array<Byte>)
    returns (lines: seq<Bytes>, err: Option<Raised>)
    requires buffer.Length >= 1
    modifies buffer
    ensures |patterns| == 0 ==> err == Some(NoPatterns)
    ensures |patterns| > 0 && Scan(index, 0).status != OK ==> err == Some(IndexScanFailed)
    ensures |patterns| > 0 && Scan(index, 0).status == OK ==>
      if LinesMatchFails(FoundCount(index, patterns), |patterns|, findany) then err == Some(NoMatch)
      else
        var ps := [0] + FoundPositions(LabelTable(index, patterns));
        && err == FirstLineError(input, ps, buffer.Length)
        && (err.None? ==> |lines| == |ps| && forall k :: 0 <= k < |ps| ==> ps[k] >= 0 && lines[k] == LineAt(input, ps[k]) + [NL])
  {
    lines := [];
    var dht, nresult;
    dht, nresult, err := MatchPatterns(index, patterns, findany);
    if err.Some? {
      return;
    }
    var ps := [0] + FoundPositions(dht.entries);
    lines, err := ReadLines(input, ps, buffer);
  }

  /** No pattern is given twice. */
  ghost predicate DistinctPatterns(patterns: seq<Bytes>)
  {
    forall i, j :: 0 <= i < j < |patterns| ==> patterns[i] != patterns[j]
  }

  /** The seeded table has a label per pattern, fewer when a pattern repeats. */
  lemma {:induction false} SeededLength(patterns: seq<Bytes>)
    ensures |Seeded(patterns)| <= |patterns|
    ensures DistinctPatterns(patterns) ==> |Seeded(patterns)| == |patterns|
  {
    if |patterns| > 0 {
      var n := |patterns| - 1;
      SeededLength(patterns[..n]);
      if DistinctPatterns(patterns) {
        assert DistinctPatterns(patterns[..n]);
        SeededFind(patterns[..n], patterns[n]);
        assert patterns[n] !in patterns[..n];
      }
    }
  }

  /** The label table after the scan keeps the seeded labels in order, and
      no value in it drops below -1. */
  lemma LabelTableShape(index: Bytes, patterns: seq<Bytes>)
    ensures var t := LabelTable(index, patterns);
      && |t| == |Seeded(patterns)| && DistinctKeys(t) && NoneBelowMinusOne(t)
      && forall k :: Find(t, k) == Find(Seeded(patterns), k)
  {
    var recs := Scan(index, 0).recs;
    var es := Seeded(patterns);
    SeededValues(patterns);
    ApplyValid(es, recs, false);
    assert |Keys(es)| == |es|;
    forall k
      ensures Find(Apply(es, recs, false), k) == Find(es, k)
    {
      FindSameKeys(Apply(es, recs, false), es, k);
    }
    ApplyKeepsAbove(es, recs, false);
  }

  /** A label is found in the label table exactly when it is a pattern that
      some index record names. */
  lemma LabelTableFound(index: Bytes, patterns: seq<Bytes>, k: Bytes)
    ensures ValueOf(LabelTable(index, patterns), k) != -1 <==>
      k in patterns && exists m :: 0 <= m < |Scan(index, 0).recs| && Scan(index, 0).recs[m].key == k
  {
    var recs := Scan(index, 0).recs;
    var es := Seeded(patterns);
    SeededValues(patterns);
    SeededFind(patterns, k);
    FoundExactly(es, recs, k);
    var t := LabelTable(index, patterns);
    assert t == Apply(es, recs, false);
    if ValueOf(t, k) != -1 {
      assert k in patterns;
      var m :| 0 <= m < |recs| && recs[m].key == k;
      assert Scan(index, 0).recs[m].key == k;
    } else if k in patterns {
      assert Find(es, k) >= 0;
      assert !exists m :: 0 <= m < |recs| && recs[m].key == k;
    }
  }

  /** A pattern some index record names counts as found, so the count the
      match rule sees is positive. */
  lemma FoundCountPositive(index: Bytes, patterns: seq<Bytes>, q: Bytes, mq: nat)
    requires q in patterns && mq < |Scan(index, 0).recs| && Scan(index, 0).recs[mq].key == q
    ensures FoundCount(index, patterns) > 0
  {
    var t := LabelTable(index, patterns);
    LabelTableShape(index, patterns);
    LabelTableFound(index, patterns, q);
    SeededLength(patterns);
    var j := Find(t, q);
    assert t[j].value != -1;
    CountSplit(t, -1);
  }

  /** A pattern no index record names stays at -1, and reading the line at
      every position in the table, as tsvGetLines does, then fails: with the
      seek error, unless a line at a found position is too long first. */
  lemma MissingLabelAborts(input: Bytes, index: Bytes, patterns: seq<Bytes>, size: nat, p: Bytes)
    requires p in patterns && forall m :: 0 <= m < |Scan(index, 0).recs| ==> Scan(index, 0).recs[m].key != p
    ensures var ps := [0] + Positions(LabelTable(index, patterns));
      && FirstLineError(input, ps, size).Some?
      && ((forall k :: 0 <= k < |ps| && ps[k] >= 0 ==> |LineAt(input, ps[k])| < size) ==> FirstLineError(input, ps, size) == Some(SeekError))
  {
    var t := LabelTable(index, patterns);
    LabelTableShape(index, patterns);
    LabelTableFound(index, patterns, p);
    SeededFind(patterns, p);
    var i := Find(t, p);
    var ps := [0] + Positions(t);
    assert ps[i + 1] == -1;
    FirstLineErrorSpec(input, ps, size);
    if forall k :: 0 <= k < |ps| && ps[k] >= 0 ==> |LineAt(input, ps[k])| < size {
      FirstLineErrorSeek(input, ps, size);
    }
  }

  /** With `findany`, a request where one pattern is found and another is not
      passes the match rule, and then tsvGetLines as written seeks to -1 for
      the missing one: the read fails instead of returning the lines found. */
  lemma FindAnyAsWritten(input: Bytes, index: Bytes, patterns: seq<Bytes>, size: nat, p: Bytes, q: Bytes, mq: nat)
    requires p in patterns && forall m :: 0 <= m < |Scan(index, 0).recs| ==> Scan(index, 0).recs[m].key != p
    requires q in patterns && mq < |Scan(index, 0).recs| && Scan(index, 0).recs[mq].key == q
    ensures !LinesMatchFails(FoundCount(index, patterns), |patterns|, true)
    ensures FirstLineError(input, [0] + Positions(LabelTable(index, patterns)), size).Some?
  {
    FoundCountPositive(index, patterns, q, mq);
    MissingLabelAborts(input, index, patterns, size, p);
  }

  /** Reading only the labels found seeks to no negative position, and with
      distinct patterns it reads the header and one line per label counted as
      found: as many lines as tsvGetLines allocates. */
  lemma FoundLinesFit(index: Bytes, patterns: seq<Bytes>)
    ensures var fs := FoundPositions(LabelTable(index, patterns));
      && (forall k :: 0 <= k < |fs| ==> fs[k] >= 0)
      && (DistinctPatterns(patterns) ==> |[0] + fs| == FoundCount(index, patterns) + 1)
  {
    var t := LabelTable(index, patterns);
    LabelTableShape(index, patterns);
    SeededLength(patterns);
    WantedRowsSpec(t, |t|);
    assert t[..|t|] == t;
  }

  // ---------------------------------------------------------------------
  // tsvGetData: keeping only the patterns found

  /** The table tsvGetData rebuilds from its patterns: in request order, each
      pattern whose value in `es` is a position is inserted with it. */
  function Rebuilt(patterns: seq<Bytes>, es: seq<Entry>): seq<Entry>
  {
    if |patterns| == 0 then []
    else
      var n := |patterns| - 1;
      var prev := Rebuilt(patterns[..n], es);
      var v := ValueOf(es, patterns[n]);
      if v >= 0 then Upsert(prev, patterns[n], v) else prev
  }

  /** Every label holds a position. */
  ghost predicate AllPlaced(es: seq<Entry>)
  {
    forall i :: 0 <= i < |es| ==> es[i].value >= 0
  }

  /** Storing a position keeps every label placed. */
  lemma UpsertPlaced(es: seq<Entry>, key: Bytes, v: int)
    requires v >= 0 && AllPlaced(es)
    ensures AllPlaced(Upsert(es, key, v))
  {
    var at := Find(es, key);
    var e := Entry(key, v);
    if at >= 0 {
      var next := es[at := e];
      assert forall i :: 0 <= i < |next| ==> next[i].value >= 0;
    } else {
      var next := es + [e];
      assert forall i :: 0 <= i < |next| ==> next[i].value >= 0;
    }
  }

  /** The rebuilt table has distinct labels, each with a position. */
  lemma {:induction false} RebuiltValid(patterns: seq<Bytes>, es: seq<Entry>)
    ensures DistinctKeys(Rebuilt(patterns, es)) && AllPlaced(Rebuilt(patterns, es))
  {
    if |patterns| > 0 {
      var n := |patterns| - 1;
      var prev := Rebuilt(patterns[..n], es);
      RebuiltValid(patterns[..n], es);
      var v := ValueOf(es, patterns[n]);
      if v >= 0 {
        assert Rebuilt(patterns, es) == Upsert(prev, patterns[n], v);
        UpsertSpec(prev, patterns[n], v);
        UpsertPlaced(prev, patterns[n], v);
      } else {
        assert Rebuilt(patterns, es) == prev;
      }
    }
  }

  /** A label keeps its position in the rebuilt table exactly when it was
      requested and found; every other label reads as -1. */
  lemma {:induction false} RebuiltFind(patterns: seq<Bytes>, es: seq<Entry>, k: Bytes)
    ensures ValueOf(Rebuilt(patterns, es), k) == if k in patterns && ValueOf(es, k) >= 0 then ValueOf(es, k) else -1
  {
    if |patterns| > 0 {
      var n := |patterns| - 1;
      var prev := Rebuilt(patterns[..n], es);
      RebuiltFind(patterns[..n], es, k);
      RebuiltValid(patterns[..n], es);
      assert (k in patterns) == (k in patterns[..n] || k == patterns[n]) by {
        assert patterns == patterns[..n] + [patterns[n]];
      }
      var v := ValueOf(es, patterns[n]);
      if v >= 0 {
        if k == patterns[n] {
          UpsertSpec(prev, k, v);
        } else {
          UpsertOther(prev, patterns[n], v, k);
        }
      }
    }
  }

  /** tsvGetData's rebuild: a fresh table holding the patterns found in `dht`,
      inserted in request order with their positions. */
  method KeepFound(patterns: seq<Bytes>, dht: ValueTab) returns (found: ValueTab)
    ensures fresh(found) && found.Valid()
    ensures found.entries == Rebuilt(patterns, dht.entries)
  {
    found := new ValueTab();
    var i := 0;
    while i < |patterns|
      invariant i <= |patterns| && fresh(found) && found.Valid()
      invariant found.entries == Rebuilt(patterns[..i], dht.entries)
    {
      assert patterns[..i + 1][..i] == patterns[..i];
      var posn := dht.GetStringValue(patterns[i]);
      if posn >= 0 {
        found.InsertStrVal(patterns[i], posn);
      }
      i := i + 1;
    }
    assert patterns[..i] == patterns;
  }
}
