/**
 * The quoted-field scanner at the start of TokenizerMapper.map. It walks a
 * record character by character with three pieces of state: the number of
 * fields closed so far, the index where the current field's text starts, and
 * a flag that is true while the scan is outside a quoted field.
 *
 * At a quote character:
 *   - if the record ends after it or a comma follows, the current field is
 *     closed (its text is record[startIndex..index]), the comma is skipped and
 *     the scan is outside a field again;
 *   - otherwise, inside a field, a doubled quote is skipped as a whole;
 *   - otherwise a field opens just after the quote.
 *
 * ClosedFields is that scan written as a function of the scan state. The
 * closing rule is tried first whatever the flag says, so a field whose text
 * starts with a comma is misread (see LeadingCommaSplitsField).
 */
module RecordScanner {

  import opened Wrappers
  import opened Sequences

  /** A closed field: record[start..end] is its raw text and record[end] its closing quote. */
  datatype Field = Field(start: nat, end: nat)

  /** Field 7 (counting from 0) is a post's body and field 14 its title. */
  const BODY_FIELD: nat := 7
  const TITLE_FIELD: nat := 14

  /** Where the scan resumes after a quote at i that consumes the character after it as well. */
  function After(post: string, i: nat): nat {
    if i + 2 <= |post| then i + 2 else |post|
  }

  /** The shape every closed field has: a closing quote followed by a comma or the end, and a text that starts at the record's start or just after a quote. */
  predicate WellFormed(post: string, f: Field) {
    && f.start <= f.end < |post|
    && post[f.end] == '"'
    && (f.end + 1 == |post| || post[f.end + 1] == ',')
    && (f.start == 0 || post[f.start - 1] == '"')
  }

  /**
   * The fields the scan closes from position index on, given the current
   * start index and the flag `escape` (true outside a quoted field).
   */
  function ClosedFields(post: string, index: nat, startIndex: nat, escape: bool): seq<Field>
    requires startIndex <= index <= |post|
    requires startIndex == 0 || post[startIndex - 1] == '"'
    decreases |post| - index
  {
    if index == |post| then []
    else if post[index] != '"' then ClosedFields(post, index + 1, startIndex, escape)
    else if index + 1 >= |post| || post[index + 1] == ',' then
      [Field(startIndex, index)] + ClosedFields(post, After(post, index), startIndex, true)
    else if !escape && post[index + 1] == '"' then ClosedFields(post, index + 2, startIndex, escape)
    else ClosedFields(post, index + 1, index + 1, false)
  }

  /** Every field of r is well formed and ends at or after index, and each ends at least two characters after the one before it. */
  predicate Shaped(post: string, r: seq<Field>, index: nat) {
    && (forall k :: 0 <= k < |r| ==> WellFormed(post, r[k]) && index <= r[k].end)
    && (forall k :: 0 < k < |r| ==> r[k - 1].end + 2 <= r[k].end)
  }

  /** The fields the scan closes are shaped as the loop promises. */
  lemma {:induction false} ClosedFieldsShape(post: string, index: nat, startIndex: nat, escape: bool)
    requires startIndex <= index <= |post|
    requires startIndex == 0 || post[startIndex - 1] == '"'
    ensures Shaped(post, ClosedFields(post, index, startIndex, escape), index)
    decreases |post| - index
  {
    var r := ClosedFields(post, index, startIndex, escape);
    if index == |post| {
    } else if post[index] != '"' {
      ClosedFieldsShape(post, index + 1, startIndex, escape);
      ShapedWeaken(post, r, index, index + 1);
    } else if index + 1 >= |post| || post[index + 1] == ',' {
      var next := After(post, index);
      var rest := ClosedFields(post, next, startIndex, true);
      ClosedFieldsShape(post, next, startIndex, true);
      ClosedCons(post, r, Field(startIndex, index), rest, index, next);
    } else if !escape && post[index + 1] == '"' {
      ClosedFieldsShape(post, index + 2, startIndex, escape);
      ShapedWeaken(post, r, index, index + 2);
    } else {
      ClosedFieldsShape(post, index + 1, index + 1, false);
      ShapedWeaken(post, r, index, index + 1);
    }
  }

  lemma ShapedWeaken(post: string, r: seq<Field>, i: nat, j: nat)
    requires i <= j && Shaped(post, r, j)
    ensures Shaped(post, r, i)
  {
  }

  lemma ClosedCons(post: string, r: seq<Field>, f: Field, rest: seq<Field>, index: nat, next: nat)
    requires r == [f] + rest && WellFormed(post, f) && f.end == index
    requires next == After(post, index) && (rest != [] ==> next == index + 2)
    requires Shaped(post, rest, next)
    ensures Shaped(post, r, index)
  {
    forall k | 0 < k < |r| ensures r[k] == rest[k - 1] {}
  }

  /**
   * The scan is at position index with the given start index and flag, and
   * has closed `closed` so far: those, followed by the fields it closes from
   * here on, are the fields of the whole record.
   */
  predicate Scanning(post: string, closed: seq<Field>, index: nat, startIndex: nat, escape: bool) {
    && startIndex <= index <= |post|
    && (startIndex == 0 || post[startIndex - 1] == '"')
    && Fields(post) == closed + ClosedFields(post, index, startIndex, escape)
  }

  // One step of the scan, one lemma per branch of the loop body.

  lemma ScanPlain(post: string, closed: seq<Field>, index: nat, startIndex: nat, escape: bool)
    requires Scanning(post, closed, index, startIndex, escape) && index < |post|
    requires post[index] != '"'
    ensures Scanning(post, closed, index + 1, startIndex, escape)
  {
  }

  lemma ScanClose(post: string, closed: seq<Field>, index: nat, startIndex: nat, escape: bool)
    requires Scanning(post, closed, index, startIndex, escape) && index < |post|
    requires post[index] == '"' && (index + 1 >= |post| || post[index + 1] == ',')
    ensures Scanning(post, closed + [Field(startIndex, index)], After(post, index), startIndex, true)
  {
    var rest := ClosedFields(post, After(post, index), startIndex, true);
    assert ClosedFields(post, index, startIndex, escape) == [Field(startIndex, index)] + rest;
    assert closed + ([Field(startIndex, index)] + rest) == (closed + [Field(startIndex, index)]) + rest;
  }

  lemma ScanDoubled(post: string, closed: seq<Field>, index: nat, startIndex: nat)
    requires Scanning(post, closed, index, startIndex, false) && index + 1 < |post|
    requires post[index] == '"' && post[index + 1] == '"'
    ensures Scanning(post, closed, index + 2, startIndex, false)
  {
  }

  lemma ScanOpen(post: string, closed: seq<Field>, index: nat, startIndex: nat, escape: bool)
    requires Scanning(post, closed, index, startIndex, escape) && index + 1 < |post|
    requires post[index] == '"' && post[index + 1] != ','
    requires escape || post[index + 1] != '"'
    ensures Scanning(post, closed, index + 1, index + 1, false)
  {
  }

  /** At the end of the record the scan has closed every field. */
  lemma ScanDone(post: string, closed: seq<Field>, startIndex: nat, escape: bool)
    requires Scanning(post, closed, |post|, startIndex, escape)
    ensures closed == Fields(post)
  {
    assert closed + [] == closed;
  }

  /** The fields of a whole record, in order. */
  function Fields(post: string): seq<Field> {
    ClosedFields(post, 0, 0, true)
  }

  /** The raw text of field k, if the record has that many fields. */
  function FieldText(post: string, fields: seq<Field>, k: nat): (r: Option<string>)
  {
    if k < |fields| && fields[k].start <= fields[k].end <= |post|
    then Some(post[fields[k].start..fields[k].end])
    else None
  }

  /** Field k's text is taken from the record as it stands, doubled quotes included. */
  lemma FieldTextIsSubstring(post: string, k: nat)
    requires FieldText(post, Fields(post), k).Some?
    ensures exists i, j :: 0 <= i <= j < |post| && post[j] == '"' && FieldText(post, Fields(post), k) == Some(post[i..j])
  {
    var f := Fields(post)[k];
    ClosedFieldsShape(post, 0, 0, true);
    assert Shaped(post, Fields(post), 0);
    assert WellFormed(post, f);
    assert 0 <= f.start <= f.end < |post| && post[f.end] == '"';
  }

  /** Closing one more field leaves the texts of the earlier ones as they were. */
  lemma FieldTextAppend(post: string, fields: seq<Field>, f: Field, k: nat)
    requires f.start <= f.end <= |post|
    ensures FieldText(post, fields + [f], k) == if k == |fields| then Some(post[f.start..f.end]) else FieldText(post, fields, k)
  {
    if k < |fields| {
      assert (fields + [f])[k] == fields[k];
    }
  }

  lemma FieldTextShift(post: string, f: Field, fields: seq<Field>, k: nat)
    requires 0 < k
    ensures FieldText(post, [f] + fields, k) == FieldText(post, fields, k - 1)
  {
    if k - 1 < |fields| {
      assert ([f] + fields)[k] == fields[k - 1];
    }
  }

  /** A value that replaces the old one only when a new one was found, as the mapper's instance fields do. */
  function Latest(previous: Option<string>, found: Option<string>): Option<string> {
    if found.Some? then found else previous
  }

  // ---------------------------------------------------------------------
  // Quoting: the record format the scanner is meant to read.

  /** A field's text with every quote doubled. */
  function Escape(s: string): string {
    if s == [] then [] else (if s[0] == '"' then "\"\"" else [s[0]]) + Escape(s[1..])
  }

  function Quote(s: string): string {
    "\"" + Escape(s) + "\""
  }

  lemma QuoteShape(s: string)
    ensures |Quote(s)| == |Escape(s)| + 2
    ensures Quote(s)[0] == '"' && Quote(s)[|Quote(s)| - 1] == '"'
    ensures Quote(s)[1..|Quote(s)| - 1] == Escape(s)
  {
  }

  /** A record of quoted fields separated by commas. */
  function Record(fs: seq<string>): string {
    if fs == [] then []
    else if |fs| == 1 then Quote(fs[0])
    else Quote(fs[0]) + "," + Record(fs[1..])
  }

  predicate StartsWithComma(s: string) {
    s != [] && s[0] == ','
  }

  lemma {:induction false} EscapeStartsWithComma(s: string)
    ensures StartsWithComma(Escape(s)) <==> StartsWithComma(s)
  {
    if s != [] {
      assert Escape(s)[0] == if s[0] == '"' then '"' else s[0];
    }
  }

  /**
   * Inside an open field, an escaped text (each quote doubled) closes no
   * field and leaves the start index where it was: each doubled quote is
   * stepped over as a pair.
   */
  lemma {:induction false} EscapedTextClosesNothing(post: string, index: nat, end: nat, startIndex: nat, s: string)
    requires end == index + |Escape(s)| && end <= |post|
    requires startIndex <= index
    requires startIndex == 0 || post[startIndex - 1] == '"'
    requires post[index..end] == Escape(s)
    ensures ClosedFields(post, index, startIndex, false) == ClosedFields(post, end, startIndex, false)
    decreases |s|
  {
    if s != [] {
      var head := if s[0] == '"' then "\"\"" else [s[0]];
      var rest := Escape(s[1..]);
      var e := Escape(s);
      assert e == head + rest;
      SliceOfSlice(post, index, end, |head|, |e|);
      assert e[|head|..|e|] == rest;
      if s[0] == '"' {
        assert post[index] == e[0] == '"' && post[index + 1] == e[1] == '"';
      } else {
        assert post[index] == s[0];
      }
      EscapedTextClosesNothing(post, index + |head|, end, startIndex, s[1..]);
    }
  }

  /**
   * A quoted field at position index, read from outside any field, is closed
   * as one field whose text is the escaped field, provided the record ends
   * after its closing quote or a comma follows it.
   */
  lemma ScanQuotedField(post: string, index: nat, startIndex: nat, f: string, close: nat)
    requires close == index + |Quote(f)| - 1
    requires startIndex <= index && close < |post|
    requires startIndex == 0 || post[startIndex - 1] == '"'
    requires post[index..close + 1] == Quote(f)
    requires !StartsWithComma(f)
    requires close + 1 == |post| || post[close + 1] == ','
    ensures ClosedFields(post, index, startIndex, true)
         == [Field(index + 1, close)] + ClosedFields(post, After(post, close), index + 1, true)
  {
    var e, q := Escape(f), Quote(f);
    QuoteShape(f);
    assert post[index] == q[0] == '"' && post[close] == q[|q| - 1] == '"';
    SliceOfSlice(post, index, close + 1, 1, close - index);
    assert post[index + 1..close] == e;
    EscapeStartsWithComma(f);
    if e != [] {
      assert post[index + 1] == e[0];
    }
    assert ClosedFields(post, index, startIndex, true) == ClosedFields(post, index + 1, index + 1, false);
    EscapedTextClosesNothing(post, index + 1, close, index + 1, f);
  }

  lemma RecordSplits(fs: seq<string>)
    requires |fs| > 1
    ensures Record(fs) == Quote(fs[0]) + "," + Record(fs[1..])
    ensures Record(fs)[..|Quote(fs[0])|] == Quote(fs[0])
    ensures Record(fs)[|Quote(fs[0])|] == ','
    ensures Record(fs)[|Quote(fs[0])| + 1..] == Record(fs[1..])
  {
  }

  /** The text of a field closed at the first quoted field of a record is that field escaped. */
  lemma FirstFieldText(post: string, index: nat, f: string, close: nat)
    requires close == index + |Quote(f)| - 1 && close < |post|
    requires post[index..close + 1] == Quote(f)
    ensures index + 1 <= close && post[index + 1..close] == Escape(f)
  {
    QuoteShape(f);
    SliceOfSlice(post, index, close + 1, 1, close - index);
  }

  /** What a record's tail looks like once its first quoted field is read. */
  lemma RecordAt(post: string, index: nat, fs: seq<string>)
    requires index <= |post| && post[index..] == Record(fs) && fs != []
    ensures index + |Quote(fs[0])| <= |post|
    ensures post[index..index + |Quote(fs[0])|] == Quote(fs[0])
    ensures |fs| == 1 ==> index + |Quote(fs[0])| == |post|
    ensures |fs| > 1 ==>
              && index + |Quote(fs[0])| < |post|
              && post[index + |Quote(fs[0])|] == ','
              && post[index + |Quote(fs[0])| + 1..] == Record(fs[1..])
  {
    var q := Quote(fs[0]);
    if |fs| > 1 {
      RecordSplits(fs);
      assert post[index..index + |q|] == post[index..][..|q|];
      assert post[index + |q|] == post[index..][|q|];
      assert post[index + |q| + 1..] == post[index..][|q| + 1..];
    } else {
      assert post[index..index + |q|] == post[index..];
    }
  }

  /** The fields r read back the quoted fields fs: one each, with the escaped text. */
  predicate ReadsBack(post: string, r: seq<Field>, fs: seq<string>) {
    |r| == |fs| && forall k :: 0 <= k < |fs| ==> FieldText(post, r, k) == Some(Escape(fs[k]))
  }

  lemma ReadsBackCons(post: string, r: seq<Field>, f: Field, tail: seq<Field>, fs: seq<string>)
    requires fs != [] && r == [f] + tail
    requires f.start <= f.end <= |post| && post[f.start..f.end] == Escape(fs[0])
    requires ReadsBack(post, tail, fs[1..])
    ensures ReadsBack(post, r, fs)
  {
    assert FieldText(post, r, 0) == Some(Escape(fs[0]));
    forall k | 0 < k < |fs| ensures FieldText(post, r, k) == Some(Escape(fs[k])) {
      FieldTextShift(post, f, tail, k);
      assert fs[k] == fs[1..][k - 1];
    }
  }

  /** No field's text begins with a comma. */
  predicate NoLeadingComma(fs: seq<string>) {
    forall k :: 0 <= k < |fs| ==> !StartsWithComma(fs[k])
  }

  lemma NoLeadingCommaTail(fs: seq<string>)
    requires fs != [] && NoLeadingComma(fs)
    ensures !StartsWithComma(fs[0]) && NoLeadingComma(fs[1..])
  {
    assert forall k :: 0 <= k < |fs| - 1 ==> fs[1..][k] == fs[k + 1];
  }

  /** Reading the first quoted field of a record at position index: one field closes, and the scan resumes at next. */
  lemma ScanRecordHead(post: string, index: nat, startIndex: nat, fs: seq<string>, close: nat, next: nat)
    requires startIndex <= index <= |post|
    requires startIndex == 0 || post[startIndex - 1] == '"'
    requires post[index..] == Record(fs) && fs != [] && !StartsWithComma(fs[0])
    requires close == index + |Quote(fs[0])| - 1 && next == After(post, close)
    ensures index < close < |post| && post[index] == '"' && index + 1 <= next <= |post|
    ensures ClosedFields(post, index, startIndex, true) == [Field(index + 1, close)] + ClosedFields(post, next, index + 1, true)
    ensures post[index + 1..close] == Escape(fs[0])
    ensures |fs| == 1 ==> next == |post|
    ensures |fs| > 1 ==> next == close + 2 && post[next..] == Record(fs[1..])
  {
    RecordAt(post, index, fs);
    QuoteShape(fs[0]);
    ScanQuotedField(post, index, startIndex, fs[0], close);
    FirstFieldText(post, index, fs[0], close);
  }

  /**
   * Reading a quoted record from position index, outside any field, closes
   * one field per quoted field, whose raw text is that field escaped.
   */
  lemma {:induction false} ScanRecord(post: string, index: nat, startIndex: nat, fs: seq<string>)
    requires startIndex <= index <= |post|
    requires startIndex == 0 || post[startIndex - 1] == '"'
    requires post[index..] == Record(fs)
    requires NoLeadingComma(fs)
    ensures ReadsBack(post, ClosedFields(post, index, startIndex, true), fs)
    decreases |fs|
  {
    if fs == [] {
      assert |post[index..]| == 0;
    } else {
      NoLeadingCommaTail(fs);
      var close := index + |Quote(fs[0])| - 1;
      var next := After(post, close);
      ScanRecordHead(post, index, startIndex, fs, close, next);
      var tail := ClosedFields(post, next, index + 1, true);
      if |fs| > 1 {
        ScanRecord(post, next, index + 1, fs[1..]);
      } else {
        assert tail == [];
      }
      ReadsBackCons(post, ClosedFields(post, index, startIndex, true), Field(index + 1, close), tail, fs);
    }
  }

  /**
   * The scanner reads a record of quoted fields back: field k's raw text is
   * the k-th field with its quotes doubled (they are not undone), provided
   * no field's text starts with a comma.
   */
  lemma FieldsOfRecord(fs: seq<string>)
    requires NoLeadingComma(fs)
    ensures |Fields(Record(fs))| == |fs|
    ensures forall k :: 0 <= k < |fs| ==> FieldText(Record(fs), Fields(Record(fs)), k) == Some(Escape(fs[k]))
  {
    var post := Record(fs);
    assert post[0..] == post;
    ScanRecord(post, 0, 0, fs);
    assert ReadsBack(post, Fields(post), fs);
  }

  /**
   * The record "\",a\"" holds one field whose text is ",a". The opening
   * quote is followed by a comma and is taken for a closing one, so the
   * scanner sees two fields, the second spanning both quotes.
   */
  lemma LeadingCommaSplitsField()
    ensures Record([",a"]) == "\",a\""
    ensures Fields("\",a\"") == [Field(0, 0), Field(0, 3)]
    ensures FieldText("\",a\"", Fields("\",a\""), 1) == Some("\",a")
  {
    var post := "\",a\"";
    assert Escape(",a") == ",a";
    assert ClosedFields(post, 3, 0, true) == [Field(0, 3)];
    assert ClosedFields(post, 2, 0, true) == [Field(0, 3)];
    assert ClosedFields(post, 0, 0, true) == [Field(0, 0)] + ClosedFields(post, 2, 0, true);
    assert post[0..3] == "\",a";
  }
}
