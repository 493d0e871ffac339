/** The index file that generate_index writes and scan_index_file reads back:
    one line `label TAB offset NL` per data line of a TSV file, the offset
    being the byte position where that data line starts. */
module IndexFormat {
  import opened Text
  import opened TsvIo

  datatype Record = Record(key: Bytes, offset: nat)

  /** The records a pass produced, and the status it returned. */
  datatype Outcome = Outcome(recs: seq<Record>, status: Status)

  /** `done` records followed by what the rest of the pass produces. */
  function Prepend(done: seq<Record>, rest: Outcome): Outcome
  {
    Outcome(done + rest.recs, rest.status)
  }

  /** Prepending in two steps is prepending the concatenation. */
  lemma PrependTwice(a: seq<Record>, b: seq<Record>, rest: Outcome)
    ensures Prepend(a, Prepend(b, rest)) == Prepend(a + b, rest)
  {
    assert a + (b + rest.recs) == a + b + rest.recs;
  }

  /** What `fprintf (op, "\t%ld\n", n)` writes. */
  function Printed(n: nat): Bytes
  {
    [TAB] + Decimal(n) + [NL]
  }

  /** One index line: the label, then its offset as printed. */
  function Line(r: Record): Bytes
  {
    r.key + Printed(r.offset)
  }

  function Serialize(recs: seq<Record>): Bytes
  {
    if |recs| == 0 then [] else Line(recs[0]) + Serialize(recs[1..])
  }

  /** Writing one more record appends its line. */
  lemma {:induction false} SerializeSnoc(recs: seq<Record>, r: Record)
    ensures Serialize(recs + [r]) == Serialize(recs) + r.key + Printed(r.offset)
  {
    if |recs| == 0 {
      assert [r][1..] == [];
    } else {
      var a, b, k, p := Line(recs[0]), Serialize(recs[1..]), r.key, Printed(r.offset);
      assert (recs + [r])[1..] == recs[1..] + [r];
      calc {
        Serialize(recs + [r]);
        a + Serialize(recs[1..] + [r]);
        { SerializeSnoc(recs[1..], r); }
        a + (b + k + p);
        { assert a + (b + k + p) == (a + (b + k)) + p; assert a + (b + k) == a + b + k; }
        a + b + k + p;
      }
    }
  }
}
