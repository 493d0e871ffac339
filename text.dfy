/** Bytes, the tab/newline field splitting shared by every scanner of the core,
    and the two pieces of the C library the index format leans on:
    `fprintf("%ld")` (Decimal) and `atol` (Atol). */
module Text {

  /** A byte of a file, as `getc` returns it when it is not EOF. */
  type Byte = b: int | 0 <= b < 256
  type Bytes = seq<Byte>

  datatype Option<T> = None | Some(value: T)

  /** What `getc` returns at the end of a stream. */
  const EOF: int := -1

  const NUL: Byte := 0
  const TAB: Byte := 9
  const NL: Byte := 10
  const PLUS: Byte := 43
  const MINUS: Byte := 45
  const DIGIT_ZERO: Byte := 48

  predicate IsDigit(b: Byte) { 48 <= b <= 57 }

  /** `isspace` in the C locale: space, \t, \n, \v, \f, \r. */
  predicate IsSpace(b: Byte) { b == 32 || 9 <= b <= 13 }

  predicate AllDigits(s: Bytes) { forall k :: 0 <= k < |s| ==> IsDigit(s[k]) }

  /** C string functions (`strlen`, `strcmp`, `strncmp`) see these bytes exactly. */
  predicate NoNul(s: Bytes) { forall k :: 0 <= k < |s| ==> s[k] != NUL }

  /** The C string a buffer holds: its bytes up to the first NUL. `strcmp`
      reports two buffers equal exactly when these agree. */
  function CStr(s: Bytes): (c: Bytes)
    ensures |c| <= |s|
  {
    if |s| == 0 || s[0] == NUL then [] else [s[0]] + CStr(s[1..])
  }

  predicate NoTab(s: Bytes) { forall k :: 0 <= k < |s| ==> s[k] != TAB }

  predicate NoNewline(s: Bytes) { forall k :: 0 <= k < |s| ==> s[k] != NL }

  function CountTabs(s: Bytes): nat
  {
    if |s| == 0 then 0 else (if s[0] == TAB then 1 else 0) + CountTabs(s[1..])
  }

  lemma {:induction false} CountTabsAppend(a: Bytes, b: Bytes)
    ensures CountTabs(a + b) == CountTabs(a) + CountTabs(b)
  {
    if |a| > 0 {
      assert (a + b)[1..] == a[1..] + b;
      CountTabsAppend(a[1..], b);
    } else {
      assert a + b == b;
    }
  }

  // ---------------------------------------------------------------------
  // Fields of a line buffer.
  //
  // get_tsv_fields, scan_header_line and find_col_indices all walk a buffer
  // with the same loop: a field runs up to the next TAB or NL, and the
  // terminator, when there is one, is stepped over.

  /** The end of the field that starts at `i`: the first TAB or NL at or after `i`. */
  function FieldEnd(buf: Bytes, i: nat): (e: nat)
    requires i <= |buf|
    ensures i <= e <= |buf|
    ensures e < |buf| ==> buf[e] == TAB || buf[e] == NL
    decreases |buf| - i
  {
    if i == |buf| || buf[i] == TAB || buf[i] == NL then i else FieldEnd(buf, i + 1)
  }

  /** No TAB or NL comes before the end of a field. */
  lemma {:induction false} FieldEndSpan(buf: Bytes, i: nat)
    requires i <= |buf|
    ensures forall k :: i <= k < FieldEnd(buf, i) ==> buf[k] != TAB && buf[k] != NL
    decreases |buf| - i
  {
    if !(i == |buf| || buf[i] == TAB || buf[i] == NL) {
      FieldEndSpan(buf, i + 1);
    }
  }

  /** A field that stops at `e` ends at `e`. */
  lemma {:induction false} FieldEndIs(buf: Bytes, i: nat, e: nat)
    requires i <= e <= |buf|
    requires forall k :: i <= k < e ==> buf[k] != TAB && buf[k] != NL
    requires e < |buf| ==> buf[e] == TAB || buf[e] == NL
    ensures FieldEnd(buf, i) == e
    decreases e - i
  {
    if i < e {
      FieldEndIs(buf, i + 1, e);
    }
  }

  /** The end of the line that starts at `i`: the first NL at or after `i`. */
  function LineEnd(buf: Bytes, i: nat): (e: nat)
    requires i <= |buf|
    ensures i <= e <= |buf|
    ensures e < |buf| ==> buf[e] == NL
    decreases |buf| - i
  {
    if i == |buf| || buf[i] == NL then i else LineEnd(buf, i + 1)
  }

  /** No NL comes before the end of a line. */
  lemma {:induction false} LineEndSpan(buf: Bytes, i: nat)
    requires i <= |buf|
    ensures forall k :: i <= k < LineEnd(buf, i) ==> buf[k] != NL
    decreases |buf| - i
  {
    if !(i == |buf| || buf[i] == NL) {
      LineEndSpan(buf, i + 1);
    }
  }

  /** A buffer with no NL from `i` on has its line end at its end. */
  lemma {:induction false} LineEndNone(buf: Bytes, i: nat)
    requires i <= |buf| && forall k :: i <= k < |buf| ==> buf[k] != NL
    ensures LineEnd(buf, i) == |buf|
    decreases |buf| - i
  {
    if i < |buf| {
      LineEndNone(buf, i + 1);
    }
  }

  /** The fields the scanning loop visits when it starts at `i`. */
  function Fields(buf: Bytes, i: nat): seq<Bytes>
    requires i <= |buf|
    decreases |buf| - i
  {
    if i == |buf| then []
    else
      var e := FieldEnd(buf, i);
      [buf[i..e]] + Fields(buf, if e < |buf| then e + 1 else e)
  }

  /** Reference splitting of a line (without its newline) at every TAB. */
  function SplitTabs(s: Bytes): (fs: seq<Bytes>)
    ensures |fs| >= 1
    decreases |s|
  {
    if |s| == 0 then [[]]
    else if s[0] == TAB then [[]] + SplitTabs(s[1..])
    else
      var rest := SplitTabs(s[1..]);
      [[s[0]] + rest[0]] + rest[1..]
  }

  function JoinTabs(fs: seq<Bytes>): Bytes
    requires |fs| >= 1
  {
    if |fs| == 1 then fs[0] else fs[0] + [TAB] + JoinTabs(fs[1..])
  }

  /** Splitting at tabs then joining with tabs gives the line back. */
  lemma {:induction false} SplitTabsJoin(s: Bytes)
    ensures JoinTabs(SplitTabs(s)) == s
    decreases |s|
  {
    if |s| > 0 {
      SplitTabsJoin(s[1..]);
      var rest := SplitTabs(s[1..]);
      if s[0] == TAB {
        assert JoinTabs(SplitTabs(s)) == [] + [TAB] + JoinTabs(rest);
        assert s == [TAB] + s[1..];
      } else {
        var fs := SplitTabs(s);
        assert fs[0] == [s[0]] + rest[0] && fs[1..] == rest[1..];
        if |rest| == 1 {
          assert JoinTabs(fs) == [s[0]] + rest[0];
        } else {
          assert JoinTabs(fs) == [s[0]] + rest[0] + [TAB] + JoinTabs(rest[1..]);
          assert JoinTabs(rest) == rest[0] + [TAB] + JoinTabs(rest[1..]);
        }
        assert s == [s[0]] + s[1..];
      }
    }
  }

  /** A line has one field more than it has tabs. */
  lemma {:induction false} SplitTabsCount(s: Bytes)
    ensures |SplitTabs(s)| == CountTabs(s) + 1
    decreases |s|
  {
    if |s| > 0 {
      SplitTabsCount(s[1..]);
    }
  }

  /** No field of a split line holds a tab. */
  lemma {:induction false} SplitTabsFree(s: Bytes)
    ensures forall j :: 0 <= j < |SplitTabs(s)| ==> NoTab(SplitTabs(s)[j])
    decreases |s|
  {
    if |s| > 0 {
      SplitTabsFree(s[1..]);
      var rest := SplitTabs(s[1..]);
      var fs := SplitTabs(s);
      if s[0] != TAB {
        assert fs[0] == [s[0]] + rest[0];
        forall j | 0 <= j < |fs| ensures NoTab(fs[j]) {
          if j > 0 { assert fs[j] == rest[j]; }
        }
      } else {
        assert forall j :: 0 < j < |fs| ==> fs[j] == rest[j - 1];
      }
    }
  }

  /** Splitting `a TAB b` with a tab-free `a`. */
  lemma {:induction false} SplitTabsAtTab(a: Bytes, b: Bytes)
    requires NoTab(a)
    ensures SplitTabs(a + [TAB] + b) == [a] + SplitTabs(b)
    decreases |a|
  {
    if |a| == 0 {
      assert a + [TAB] + b == [TAB] + b;
      assert ([TAB] + b)[1..] == b;
    } else {
      SplitTabsAtTab(a[1..], b);
      assert (a + [TAB] + b)[1..] == a[1..] + [TAB] + b;
      assert [a[0]] + a[1..] == a;
    }
  }

  lemma {:induction false} SplitTabsNoTab(a: Bytes)
    requires NoTab(a)
    ensures SplitTabs(a) == [a]
    decreases |a|
  {
    if |a| > 0 {
      SplitTabsNoTab(a[1..]);
      assert [a[0]] + a[1..] == a;
    }
  }

  /** In a line buffer, a field ends at a TAB of the line or at the newline. */
  lemma FieldEndInLine(line: Bytes, i: nat)
    requires NoNewline(line) && i <= |line|
    ensures FieldEnd(line + [NL], i) <= |line|
    ensures (line + [NL])[i..FieldEnd(line + [NL], i)] == line[i..FieldEnd(line + [NL], i)]
    ensures NoTab(line[i..FieldEnd(line + [NL], i)])
    ensures FieldEnd(line + [NL], i) < |line| ==> line[FieldEnd(line + [NL], i)] == TAB
  {
    var buf := line + [NL];
    assert buf[|line|] == NL;
    FieldEndSpan(buf, i);
    var e := FieldEnd(buf, i);
    assert buf[i..e] == line[i..e];
  }

  /** The first field from `i`, ending at a terminator `e` inside the buffer,
      then the fields after it. */
  lemma FieldsCons(buf: Bytes, i: nat, e: nat)
    requires i < |buf| && e == FieldEnd(buf, i) && e < |buf|
    ensures Fields(buf, i) == [buf[i..e]] + Fields(buf, e + 1)
  {
  }

  /** A line split at one of its TABs. */
  lemma SplitAt(line: Bytes, i: nat, e: nat)
    requires i <= e < |line| && line[e] == TAB
    ensures line[i..] == line[i..e] + [TAB] + line[e + 1..]
  {
  }

  /** On a line buffer that ends in its one newline, the scanning loop visits
      exactly the tab-separated fields of the line. */
  lemma {:induction false} FieldsOfLine(line: Bytes, i: nat)
    requires NoNewline(line) && i <= |line|
    ensures Fields(line + [NL], i) == SplitTabs(line[i..])
    decreases |line| - i
  {
    var buf := line + [NL];
    FieldEndInLine(line, i);
    var e := FieldEnd(buf, i);
    var field := line[i..e];
    if e < |line| {
      var rest := line[e + 1..];
      FieldsCons(buf, i, e);
      FieldsOfLine(line, e + 1);
      assert Fields(buf, i) == [field] + SplitTabs(rest);
      SplitTabsAtTab(field, rest);
      SplitAt(line, i, e);
    } else {
      FieldsCons(buf, i, e);
      assert Fields(buf, e + 1) == [];
      SplitTabsNoTab(field);
      assert field == line[i..];
    }
  }

  /** A line with a leading empty field: the scanning loop sees that empty field first. */
  lemma LeadingEmptyField(line: Bytes)
    requires NoNewline(line)
    ensures Fields([TAB] + line + [NL], 0) == [[]] + Fields(line + [NL], 0)
  {
    FieldsOfLine([TAB] + line, 0);
    FieldsOfLine(line, 0);
    assert ([TAB] + line)[1..] == line;
    assert ([TAB] + line)[0..] == [TAB] + line;
    assert line[0..] == line;
  }

  // ---------------------------------------------------------------------
  // Decimal numbers: `fprintf (op, "%ld", n)` for n >= 0, and `atol`.

  /** The digits `%ld` prints for a non-negative `n`. */
  function Decimal(n: nat): (ds: Bytes)
    ensures 1 <= |ds| && AllDigits(ds)
    decreases n
  {
    if n < 10 then [DIGIT_ZERO + n] else Decimal(n / 10) + [DIGIT_ZERO + n % 10]
  }

  /** The value of a string of decimal digits, most significant first. */
  function DigitsValue(ds: Bytes): nat
    requires AllDigits(ds)
  {
    if |ds| == 0 then 0 else DigitsValue(ds[..|ds| - 1]) * 10 + (ds[|ds| - 1] - DIGIT_ZERO)
  }

  /** Printing then reading back a decimal gives the number. */
  lemma {:induction false} DecimalRoundTrip(n: nat)
    ensures DigitsValue(Decimal(n)) == n
    decreases n
  {
    if n >= 10 {
      DecimalRoundTrip(n / 10);
      var ds := Decimal(n);
      assert ds[..|ds| - 1] == Decimal(n / 10);
    }
  }

  /** A larger number never prints in fewer digits. */
  lemma {:induction false} DecimalMonotone(a: nat, b: nat)
    requires a <= b
    ensures |Decimal(a)| <= |Decimal(b)|
    decreases b
  {
    if a >= 10 {
      DecimalMonotone(a / 10, b / 10);
    }
  }

  /** The longest leading run of digits, accumulated onto `acc`. */
  function DigitRun(s: Bytes, acc: nat): nat
  {
    if |s| == 0 || !IsDigit(s[0]) then acc else DigitRun(s[1..], acc * 10 + (s[0] - DIGIT_ZERO))
  }

  /** `atol`: leading white space, an optional sign, then the longest run of digits. */
  function Atol(s: Bytes): int
  {
    if |s| > 0 && IsSpace(s[0]) then Atol(s[1..])
    else if |s| > 0 && s[0] == MINUS then -(DigitRun(s[1..], 0) as int)
    else if |s| > 0 && s[0] == PLUS then DigitRun(s[1..], 0)
    else DigitRun(s, 0)
  }

  lemma {:induction false} DigitRunSnoc(s: Bytes, d: Byte, acc: nat)
    requires AllDigits(s) && IsDigit(d)
    ensures DigitRun(s + [d], acc) == DigitRun(s, acc) * 10 + (d - DIGIT_ZERO)
    decreases |s|
  {
    if |s| == 0 {
      assert [] + [d] == [d];
      assert [d][1..] == [];
    } else {
      assert (s + [d])[1..] == s[1..] + [d];
      DigitRunSnoc(s[1..], d, acc * 10 + (s[0] - DIGIT_ZERO));
    }
  }

  lemma {:induction false} DigitRunValue(ds: Bytes)
    requires AllDigits(ds)
    ensures DigitRun(ds, 0) == DigitsValue(ds)
    decreases |ds|
  {
    if |ds| > 0 {
      var init := ds[..|ds| - 1];
      DigitRunValue(init);
      DigitRunSnoc(init, ds[|ds| - 1], 0);
      assert init + [ds[|ds| - 1]] == ds;
    }
  }

  /** `atol` on a TAB followed by digits reads the digits; with no digits it reads 0. */
  lemma AtolTabDigits(ds: Bytes)
    requires AllDigits(ds)
    ensures Atol([TAB] + ds) == DigitsValue(ds)
  {
    assert ([TAB] + ds)[1..] == ds;
    DigitRunValue(ds);
  }
}
