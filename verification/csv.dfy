/**
 * `toCsv`: header inference in first-seen order, one line per row, and the
 * `formatCell` quoting rule. Lines are joined with LF; a cell is quoted when
 * it holds a double quote, a comma or LF (a bare CR is not a reason to quote).
 */
module Csv {
  import opened Wrappers
  import opened Text

  /** A cell value the serialiser formats: a string, or `null`. */
  datatype Cell = CText(s: string) | CNull

  /** A record, as its own properties in `Object.keys` order. */
  type Row = seq<(string, Cell)>

  /** `Object.keys(row)`. */
  function Keys(row: Row): (ks: seq<string>)
    ensures |ks| == |row|
    ensures forall i :: 0 <= i < |row| ==> ks[i] == row[i].0
  {
    if row == [] then [] else [row[0].0] + Keys(row[1..])
  }

  /** `row[key]`: the first property named `key`; `None` is `undefined`. */
  function Lookup(row: Row, key: string): (r: Option<Cell>)
    ensures r.None? <==> key !in Keys(row)
  {
    if row == [] then None
    else if row[0].0 == key then Some(row[0].1)
    else Lookup(row[1..], key)
  }

  // Quoting.

  /** `/[",\n]/.test(value)`. */
  predicate NeedsQuoting(s: string) {
    '"' in s || ',' in s || '\n' in s
  }

  /** `value.replace(/"/g, '""')`. */
  function EscapeQuotes(s: string): (r: string)
    ensures |r| >= |s|
    ensures '"' !in s ==> r == s
  {
    if s == [] then []
    else (if s[0] == '"' then "\"\"" else [s[0]]) + EscapeQuotes(s[1..])
  }

  /** `formatCell(value)`: null and undefined render empty; a cell that needs quoting is quoted. */
  function FormatCell(v: Option<Cell>): (r: string)
    ensures v.None? || v == Some(CNull) ==> r == ""
    ensures v.Some? && v.value.CText? && !NeedsQuoting(v.value.s) ==> r == v.value.s
  {
    match v
    case None => ""
    case Some(CNull) => ""
    case Some(CText(s)) => if NeedsQuoting(s) then "\"" + EscapeQuotes(s) + "\"" else s
  }

  /** Replace each `""` by `"`: the inverse of `EscapeQuotes`. */
  function Unescape(s: string): string {
    if |s| >= 2 && s[0] == '"' && s[1] == '"' then "\"" + Unescape(s[2..])
    else if s == [] then []
    else [s[0]] + Unescape(s[1..])
  }

  lemma {:induction false} UnescapeEscape(s: string)
    ensures Unescape(EscapeQuotes(s)) == s
  {
    if s != [] {
      UnescapeEscape(s[1..]);
      if s[0] == '"' {
        assert EscapeQuotes(s) == "\"\"" + EscapeQuotes(s[1..]);
      } else {
        assert EscapeQuotes(s) == [s[0]] + EscapeQuotes(s[1..]);
      }
    }
  }

  /**
   * A quoted cell is the value between two quotes with its quotes doubled:
   * stripping the outer quotes and undoubling gives the value back.
   */
  lemma {:induction false} QuotedCellRoundTrip(s: string)
    requires NeedsQuoting(s)
    ensures var f := FormatCell(Some(CText(s)));
            && |f| >= 2 && f[0] == '"' && f[|f| - 1] == '"'
            && Unescape(f[1..|f| - 1]) == s
  {
    var f := FormatCell(Some(CText(s)));
    assert f[1..|f| - 1] == EscapeQuotes(s);
    UnescapeEscape(s);
  }

  // Header inference.

  /** The keys of all rows, row after row. */
  function AllKeys(rows: seq<Row>): seq<string> {
    if rows == [] then [] else AllKeys(rows[..|rows| - 1]) + Keys(rows[|rows| - 1])
  }

  /** `xs` without repetitions, each element kept where it first appears. */
  function Dedup(xs: seq<string>): (d: seq<string>)
    ensures forall x :: x in d <==> x in xs
    ensures Distinct(d)
  {
    if xs == [] then []
    else
      var d := Dedup(xs[..|xs| - 1]);
      if xs[|xs| - 1] in d then d else d + [xs[|xs| - 1]]
  }

  /** Position of the first occurrence of `x`. */
  function FirstIndex(xs: seq<string>, x: string): (k: nat)
    requires x in xs
    ensures k < |xs| && xs[k] == x
    ensures forall i :: 0 <= i < k ==> xs[i] != x
  {
    if xs[0] == x then 0 else 1 + FirstIndex(xs[1..], x)
  }

  lemma {:induction false} FirstIndexExtend(xs: seq<string>, y: string, x: string)
    requires x in xs
    ensures FirstIndex(xs + [y], x) == FirstIndex(xs, x)
  {
    var k := FirstIndex(xs, x);
    var k' := FirstIndex(xs + [y], x);
    assert (xs + [y])[k] == x;
    assert k' <= k;
    assert (xs + [y])[k'] == xs[k'];
  }

  /** Every element of `d` occurs in `xs`, and they occur in `d` in the order of their first occurrence in `xs`. */
  predicate InFirstAppearanceOrder(d: seq<string>, xs: seq<string>) {
    && (forall x :: x in d ==> x in xs)
    && (forall i, j :: 0 <= i < j < |d| ==> FirstIndex(xs, d[i]) < FirstIndex(xs, d[j]))
  }

  /** Deduplication keeps first-appearance order. */
  lemma {:induction false} DedupOrder(xs: seq<string>)
    ensures InFirstAppearanceOrder(Dedup(xs), xs)
  {
    if xs != [] {
      var ys := xs[..|xs| - 1];
      var x := xs[|xs| - 1];
      assert xs == ys + [x];
      DedupOrder(ys);
      var dy := Dedup(ys);
      var d := Dedup(xs);
      forall i, j | 0 <= i < j < |d| ensures FirstIndex(xs, d[i]) < FirstIndex(xs, d[j]) {
        assert d[i] == dy[i] && d[i] in dy && d[i] in ys;
        FirstIndexExtend(ys, x, d[i]);
        if j < |dy| {
          assert d[j] == dy[j] && d[j] in ys;
          FirstIndexExtend(ys, x, d[j]);
          assert InFirstAppearanceOrder(dy, ys);
          assert FirstIndex(ys, dy[i]) < FirstIndex(ys, dy[j]);
        } else {
          assert d[j] == x && x !in ys;
          assert FirstIndex(xs, x) == |ys|;
        }
      }
    }
  }

  /** The inferred header list. */
  function Headers(rows: seq<Row>): seq<string> {
    Dedup(AllKeys(rows))
  }

  /**
   * Headers are the keys of all rows, each once, in order of first appearance.
   */
  lemma HeadersSpec(rows: seq<Row>)
    ensures forall k :: k in Headers(rows) <==> k in AllKeys(rows)
    ensures Distinct(Headers(rows))
    ensures InFirstAppearanceOrder(Headers(rows), AllKeys(rows))
  {
    assert Headers(rows) == Dedup(AllKeys(rows));
    DedupOrder(AllKeys(rows));
  }

  lemma DedupSnoc(q: seq<string>, key: string)
    ensures Dedup(q + [key]) == if key in Dedup(q) then Dedup(q) else Dedup(q) + [key]
  {
    assert (q + [key])[..|q|] == q;
  }

  lemma PrefixStep<T>(s: seq<T>, j: nat)
    requires j < |s|
    ensures s[..j + 1] == s[..j] + [s[j]]
  {
  }

  lemma AppendAssoc<T>(a: seq<T>, b: seq<T>, c: seq<T>)
    ensures a + (b + c) == (a + b) + c
  {
  }

  /** The inner `forEach`: add the keys of one row not seen yet, in order. */
  method AddRowKeys(headers: seq<string>, ghost seen: seq<string>, row: Row) returns (r: seq<string>)
    requires headers == Dedup(seen)
    ensures r == Dedup(seen + Keys(row))
  {
    r := headers;
    var keys := Keys(row);
    var j := 0;
    ghost var done := seen;
    assert seen + keys[..0] == seen;
    while j < |keys|
      invariant 0 <= j <= |keys|
      invariant done == seen + keys[..j]
      invariant r == Dedup(done)
    {
      var key := keys[j];
      DedupSnoc(done, key);
      assert done + [key] == seen + keys[..j + 1] by {
        PrefixStep(keys, j);
        AppendAssoc(seen, keys[..j], [key]);
      }
      if key !in r {
        r := r + [key];
      }
      done := done + [key];
      j := j + 1;
    }
    assert keys[..|keys|] == keys;
  }

  /** The two nested `forEach` loops of `toCsv` that build the header list. */
  method InferHeaders(rows: seq<Row>) returns (headers: seq<string>)
    ensures headers == Headers(rows)
    ensures Distinct(headers)
    ensures forall k :: k in headers <==> k in AllKeys(rows)
  {
    headers := [];
    var i := 0;
    while i < |rows|
      invariant 0 <= i <= |rows|
      invariant headers == Dedup(AllKeys(rows[..i]))
    {
      assert rows[..i + 1][..i] == rows[..i];
      headers := AddRowKeys(headers, AllKeys(rows[..i]), rows[i]);
      i := i + 1;
    }
    assert rows[..|rows|] == rows;
  }

  // Serialisation.

  /** The formatted cells of one row, one per header; a missing key renders empty. */
  function FormatRow(headers: seq<string>, row: Row): (cells: seq<string>)
    ensures |cells| == |headers|
  {
    if headers == [] then [] else [FormatCell(Lookup(row, headers[0]))] + FormatRow(headers[1..], row)
  }

  /** The data lines, one per row. */
  function DataLines(headers: seq<string>, rows: seq<Row>): (lines: seq<string>)
    ensures |lines| == |rows|
  {
    if rows == [] then [] else [Join(FormatRow(headers, rows[0]), ",")] + DataLines(headers, rows[1..])
  }

  /** `toCsv(rows)`, as written: the header line joins the raw keys. */
  function ToCsv(rows: seq<Row>): (r: string)
    ensures rows == [] ==> r == ""
  {
    if rows == [] then ""
    else
      var headers := Headers(rows);
      Join([Join(headers, ",")] + DataLines(headers, rows), "\n")
  }

  /** Each header formatted like a cell. */
  function FormatHeaders(headers: seq<string>): (cells: seq<string>)
    ensures |cells| == |headers|
  {
    if headers == [] then [] else [FormatCell(Some(CText(headers[0])))] + FormatHeaders(headers[1..])
  }

  /** `toCsv` with the header line quoted by the same rule as the cells. */
  function ToCsvQuotedHeaders(rows: seq<Row>): (r: string)
    ensures rows == [] ==> r == ""
  {
    if rows == [] then ""
    else
      var headers := Headers(rows);
      Join([Join(FormatHeaders(headers), ",")] + DataLines(headers, rows), "\n")
  }

  lemma {:induction false} FormatHeadersPlain(headers: seq<string>)
    requires forall h :: h in headers ==> !NeedsQuoting(h)
    ensures FormatHeaders(headers) == headers
  {
    if headers != [] {
      FormatHeadersPlain(headers[1..]);
    }
  }

  /** When no key needs quoting, both serialisers produce the same text. */
  lemma PlainHeadersAgree(rows: seq<Row>)
    requires forall h :: h in Headers(rows) ==> !NeedsQuoting(h)
    ensures ToCsv(rows) == ToCsvQuotedHeaders(rows)
  {
    if rows != [] {
      FormatHeadersPlain(Headers(rows));
    }
  }

  /** A list with no repetitions is its own deduplication. */
  lemma {:induction false} DedupDistinct(xs: seq<string>)
    requires Distinct(xs)
    ensures Dedup(xs) == xs
  {
    if xs != [] {
      var init := xs[..|xs| - 1];
      assert Distinct(init);
      DedupDistinct(init);
      assert xs[|xs| - 1] !in init;
      assert init + [xs[|xs| - 1]] == xs;
    }
  }

  /** The headers of a single row with distinct keys are its keys, in order. */
  lemma SingleRowHeaders(row: Row)
    requires Distinct(Keys(row))
    ensures Headers([row]) == Keys(row)
  {
    var rows := [row];
    assert rows[..0] == [] && rows[|rows| - 1] == row;
    assert AllKeys(rows) == AllKeys([]) + Keys(row);
    assert AllKeys(rows) == Keys(row);
    DedupDistinct(Keys(row));
  }

  /** With distinct keys, looking up a row's i-th key finds its i-th value. */
  lemma {:induction false} LookupAt(row: Row, i: nat)
    requires Distinct(Keys(row)) && i < |row|
    ensures Lookup(row, row[i].0) == Some(row[i].1)
  {
    if i > 0 {
      assert Keys(row)[0] != Keys(row)[i];
      assert Distinct(Keys(row[1..])) by {
        forall a, b | 0 <= a < b < |row[1..]| ensures Keys(row[1..])[a] != Keys(row[1..])[b] {
          assert Keys(row[1..])[a] == Keys(row)[a + 1] && Keys(row[1..])[b] == Keys(row)[b + 1];
        }
      }
      LookupAt(row[1..], i - 1);
      assert row[1..][i - 1] == row[i];
    }
  }
}
