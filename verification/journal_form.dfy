/**
 * The journal-entry form (`src/components/journal/JournalEntry.tsx`): its
 * fields, the save guard, the standards checklist, the entry it hands to the
 * controller and the one-row CSV it exports.
 */
module JournalForm {
  import opened Wrappers
  import opened Text
  import opened Screens
  import opened Domain
  import opened Navigation
  import Json
  import Controller
  import Csv
  import CsvReader
  import CsvTable

  /** The standards offered as checkboxes. */
  const Standards: seq<string> := [
    "NGSS: MS-LS2-2", "NGSS: HS-LS4-3", "NGSS: HS-LS4-5",
    "NGSS: MS-PS1-2", "NGSS: HS-ESS3-1", "C3: D2.Geo/D2.His"]

  datatype Form = Form(plantName: string, route: Route, notes: string, standards: seq<string>)

  /** The form as first rendered: the plant name is prefilled from the scanned plant. */
  function InitialForm(plant: Option<PlantDetails>): (f: Form)
    ensures f.route == CulturalRoute && f.notes == "" && f.standards == []
    ensures plant.None? ==> f.plantName == ""
    ensures plant.Some? && plant.value.commonName.Some? ==> f.plantName == plant.value.commonName.value
    ensures plant.Some? && plant.value.commonName.None? ==> f.plantName == plant.value.name
  {
    var name := match plant
      case None => ""
      case Some(p) => p.commonName.GetOr(p.name);
    Form(name, CulturalRoute, "", [])
  }

  /** Both the notes and the plant name hold something other than whitespace. */
  function CanSave(f: Form): (ok: bool)
    ensures ok <==> !AllWhitespace(f.notes) && !AllWhitespace(f.plantName)
  {
    |Trim(f.notes)| > 0 && |Trim(f.plantName)| > 0
  }

  /** `prev.filter((item) => item !== x)`. */
  function RemoveAll(s: seq<string>, x: string): (r: seq<string>)
    ensures x !in r
    ensures forall y :: y != x ==> (y in r <==> y in s)
    ensures |r| <= |s|
  {
    if s == [] then []
    else if s[0] == x then RemoveAll(s[1..], x)
    else [s[0]] + RemoveAll(s[1..], x)
  }

  /** A checkbox click: an unchecked standard is appended, a checked one removed. */
  function ToggleStandard(s: seq<string>, x: string): (r: seq<string>)
    ensures x !in s ==> r == s + [x]
    ensures x in s ==> x !in r
    ensures forall y :: y != x ==> (y in r <==> y in s)
  {
    if x in s then RemoveAll(s, x) else s + [x]
  }

  /** Without repetitions, removing an element takes out exactly its one position. */
  lemma {:induction false} RemoveAllAt(s: seq<string>, i: nat)
    requires Distinct(s) && i < |s|
    ensures RemoveAll(s, s[i]) == s[..i] + s[i + 1..]
  {
    var x := s[i];
    assert Distinct(s[1..]) by {
      forall a, b | 0 <= a < b < |s[1..]| ensures s[1..][a] != s[1..][b] {
        assert s[1..][a] == s[a + 1] && s[1..][b] == s[b + 1];
      }
    }
    if i == 0 {
      RemoveAllAbsent(s[1..], x);
    } else {
      assert s[1..][i - 1] == x;
      RemoveAllAt(s[1..], i - 1);
      assert s[..i] == [s[0]] + s[1..][..i - 1];
      assert s[i + 1..] == s[1..][i..];
    }
  }

  lemma {:induction false} RemoveAllAbsent(s: seq<string>, x: string)
    requires x !in s
    ensures RemoveAll(s, x) == s
  {
    if s != [] {
      assert s[0] != x;
      RemoveAllAbsent(s[1..], x);
      assert [s[0]] + s[1..] == s;
    }
  }

  /** Toggling keeps the list free of repetitions. */
  lemma ToggleKeepsDistinct(s: seq<string>, x: string)
    requires Distinct(s)
    ensures Distinct(ToggleStandard(s, x))
  {
    if x in s {
      var i :| 0 <= i < |s| && s[i] == x;
      RemoveAllAt(s, i);
      DistinctWithout(s, i);
    } else {
      DistinctSnoc(s, x);
    }
  }

  lemma DistinctWithout(s: seq<string>, i: nat)
    requires Distinct(s) && i < |s|
    ensures Distinct(s[..i] + s[i + 1..])
  {
    var r := s[..i] + s[i + 1..];
    forall a, b | 0 <= a < b < |r| ensures r[a] != r[b] {
      var a' := if a < i then a else a + 1;
      var b' := if b < i then b else b + 1;
      assert r[a] == s[a'] && r[b] == s[b'];
    }
  }

  lemma DistinctSnoc(s: seq<string>, x: string)
    requires Distinct(s) && x !in s
    ensures Distinct(s + [x])
  {
    var r := s + [x];
    forall a, b | 0 <= a < b < |r| ensures r[a] != r[b] {
      assert r[a] == s[a];
      if b < |s| {
        assert r[b] == s[b];
      }
    }
  }

  lemma {:induction false} RemoveAllAppended(s: seq<string>, x: string)
    requires x !in s
    ensures RemoveAll(s + [x], x) == s
  {
    if s == [] {
      assert [x][1..] == [];
    } else {
      assert (s + [x])[1..] == s[1..] + [x];
      RemoveAllAppended(s[1..], x);
      assert [s[0]] + s[1..] == s;
    }
  }

  /** Checking and then unchecking a standard that was unchecked restores the list. */
  lemma ToggleTwice(s: seq<string>, x: string)
    requires x !in s
    ensures ToggleStandard(ToggleStandard(s, x), x) == s
  {
    RemoveAllAppended(s, x);
  }

  /** The checklist after a sequence of clicks, starting from none. */
  function Clicks(s: seq<string>, xs: seq<string>): seq<string>
    decreases |xs|
  {
    if xs == [] then s else Clicks(ToggleStandard(s, xs[0]), xs[1..])
  }

  /**
   * After any clicks from an empty checklist, the list has no repetitions and a
   * standard is checked exactly when it was clicked an odd number of times.
   */
  lemma {:induction false} ClicksParity(s: seq<string>, xs: seq<string>)
    requires Distinct(s)
    ensures Distinct(Clicks(s, xs))
    ensures forall y :: y in Clicks(s, xs) <==> (y in s <==> Count(xs, y) % 2 == 0)
    decreases |xs|
  {
    if xs != [] {
      var t := ToggleStandard(s, xs[0]);
      ToggleKeepsDistinct(s, xs[0]);
      ClicksParity(t, xs[1..]);
      assert Clicks(s, xs) == Clicks(t, xs[1..]);
      forall y ensures y in Clicks(s, xs) <==> (y in s <==> Count(xs, y) % 2 == 0) {
        var rest := Count(xs[1..], y);
        if y == xs[0] {
          assert Count(xs, y) == rest + 1;
          assert (y in t) == (y !in s);
        } else {
          assert Count(xs, y) == rest;
        }
      }
    }
  }

  lemma ClicksFromEmpty(xs: seq<string>)
    ensures Distinct(Clicks([], xs))
    ensures forall y :: y in Clicks([], xs) <==> Count(xs, y) % 2 == 1
  {
    ClicksParity([], xs);
  }

  /** The entry `handleSave` hands to `addJournalEntry`: trimmed texts, no standards field when none are checked. */
  function Draft(f: Form, id: string): (d: EntryDraft)
    ensures d.id == id && d.route == f.route
    ensures d.plantName == Trim(f.plantName) && d.notes == Trim(f.notes)
    ensures d.standards.None? <==> f.standards == []
    ensures d.standards.Some? ==> d.standards.value == f.standards
  {
    EntryDraft(id, Trim(f.plantName), f.route, Trim(f.notes),
               if |f.standards| > 0 then Some(f.standards) else None)
  }

  /** The form's save navigates along an edge of the transition table. */
  lemma SaveTargetAllowed()
    ensures IsEdge(JournalEntry, JournalList)
  {
    assert AllowedTransitions(JournalEntry) == [JournalList, Home];
  }

  /** `handleSave`: nothing unless the form can be saved; otherwise add the entry, then go to the list. */
  function Save(codec: Json.Codec, s: Controller.AppState, f: Form, id: string, date: string): (r: Controller.AppState)
    ensures !CanSave(f) ==> r == s
    ensures CanSave(f) ==> r.journal == s.journal + [Dated(Draft(f, id), date)]
    ensures CanSave(f) && s.screen == JournalEntry ==> r.screen == JournalList
  {
    if !CanSave(f) then s
    else
      var entry := Dated(Draft(f, id), date);
      var added := Controller.AddJournalEntry(codec, s, Draft(f, id), date);
      assert added.journal == s.journal + [entry];
      assert added.screen == s.screen;
      SaveTargetAllowed();
      var r := Controller.Go(added, JournalList);
      assert r.journal == added.journal;
      r
  }

  /** A save is the two controller events it triggers, so it keeps the controller's invariant. */
  lemma SaveValid(codec: Json.Codec, s: Controller.AppState, f: Form, id: string, date: string)
    requires Controller.Valid(codec, s)
    ensures Controller.Valid(codec, Save(codec, s, f, id, date))
  {
    if CanSave(f) {
      var d := Draft(f, id);
      var added := Controller.AddJournalEntry(codec, s, d, date);
      Controller.SettleValid(codec, s, s.(journal := s.journal + [Dated(d, date)]));
      Controller.GoValid(codec, added, JournalList);
      assert Save(codec, s, f, id, date) == Controller.Go(added, JournalList);
    }
  }

  /** The export's column names, in order. */
  const ExportHeaders: seq<string> := ["Plant Name", "Route", "Notes", "Standards"]

  /** The single row the export serialises: the untrimmed fields, standards joined by "; ". */
  function ExportRow(f: Form): (r: Csv.Row)
    ensures Csv.Keys(r) == ExportHeaders
    ensures Csv.Lookup(r, "Plant Name") == Some(Csv.CText(f.plantName))
    ensures Csv.Lookup(r, "Route") == Some(Csv.CText(RouteName(f.route)))
    ensures Csv.Lookup(r, "Notes") == Some(Csv.CText(f.notes))
    ensures Csv.Lookup(r, "Standards") == Some(Csv.CText(Join(f.standards, "; ")))
  {
    var r := [("Plant Name", Csv.CText(f.plantName)), ("Route", Csv.CText(RouteName(f.route))),
              ("Notes", Csv.CText(f.notes)), ("Standards", Csv.CText(Join(f.standards, "; ")))];
    var ks := Csv.Keys(r);
    assert ks[0] == "Plant Name" && ks[1] == "Route" && ks[2] == "Notes" && ks[3] == "Standards";
    assert Distinct(ks);
    Csv.LookupAt(r, 0);
    Csv.LookupAt(r, 1);
    Csv.LookupAt(r, 2);
    Csv.LookupAt(r, 3);
    r
  }

  /**
   * `handleCsvExport`: the download's file name and content, or nothing when
   * the form cannot be saved.
   */
  function CsvExport(f: Form): (r: Option<(string, string)>)
    ensures r.Some? <==> CanSave(f)
    ensures r.Some? ==> r.value.1 == Csv.ToCsv([ExportRow(f)])
  {
    if !CanSave(f) then None
    else
      Some(((if f.plantName == "" then "journal-entry" else f.plantName) + ".csv",
            Csv.ToCsv([ExportRow(f)])))
  }

  /** The `'journal-entry'` fallback never applies: a savable form has a non-empty plant name. */
  lemma ExportFileName(f: Form)
    ensures CsvExport(f).Some? ==> CsvExport(f).value.0 == f.plantName + ".csv"
  {
    assert AllWhitespace("");
  }

  /**
   * The exported text reads back as the four column names and one record with
   * the plant name, route, notes and joined standards, whatever they contain.
   */
  lemma ExportRoundTrip(f: Form)
    ensures CsvExport(f).Some? ==>
              CsvReader.ReadRecords(CsvExport(f).value.1)
              == [ExportHeaders, [f.plantName, RouteName(f.route), f.notes, Join(f.standards, "; ")]]
  {
    ExportText(f);
    ExportLines(f);
  }

  /** The two records of the serialised export row. */
  lemma ExportLines(f: Form)
    ensures CsvReader.ReadRecords(Csv.ToCsvQuotedHeaders([ExportRow(f)]))
            == [ExportHeaders, [f.plantName, RouteName(f.route), f.notes, Join(f.standards, "; ")]]
  {
    ExportHeadersOfRow(f);
    var fields := [f.plantName, RouteName(f.route), f.notes, Join(f.standards, "; ")];
    var row := ExportRow(f);
    assert fields[0] == CsvReader.CellText(Csv.Lookup(row, ExportHeaders[0]));
    assert fields[1] == CsvReader.CellText(Csv.Lookup(row, ExportHeaders[1]));
    assert fields[2] == CsvReader.CellText(Csv.Lookup(row, ExportHeaders[2]));
    assert fields[3] == CsvReader.CellText(Csv.Lookup(row, ExportHeaders[3]));
    ReadsBackAs(row, ExportHeaders, fields);
  }

  /** A single row reads back as its headers and the texts of its cells under them. */
  lemma ReadsBackAs(row: Csv.Row, hs: seq<string>, fields: seq<string>)
    requires Csv.Headers([row]) == hs && hs != []
    requires |fields| == |hs|
    requires forall j :: 0 <= j < |hs| ==> fields[j] == CsvReader.CellText(Csv.Lookup(row, hs[j]))
    ensures CsvReader.ReadRecords(Csv.ToCsvQuotedHeaders([row])) == [hs, fields]
  {
    var read := CsvReader.ReadRecords(Csv.ToCsvQuotedHeaders([row]));
    CsvTable.SingleRowReadsBack(row);
    var line := read[1];
    assert |line| == |fields|;
    forall j | 0 <= j < |fields| ensures line[j] == fields[j] {
      assert line[j] == CsvReader.CellText(Csv.Lookup(row, hs[j]));
    }
    assert line == fields;
    assert read == [hs, line];
  }

  /**
   * The four column names need no quoting, so the serialiser as written and
   * the one that quotes its headers give the same text for the export.
   */
  lemma ExportText(f: Form)
    ensures CsvExport(f).Some? ==> CsvExport(f).value.1 == Csv.ToCsvQuotedHeaders([ExportRow(f)])
  {
    ExportHeadersOfRow(f);
    Csv.PlainHeadersAgree([ExportRow(f)]);
  }

  /** The export row's headers are the four column names, none of which needs quoting. */
  lemma ExportHeadersOfRow(f: Form)
    ensures Csv.Headers([ExportRow(f)]) == ExportHeaders
    ensures forall h :: h in ExportHeaders ==> !Csv.NeedsQuoting(h)
  {
    ExportHeadersPlain();
    Csv.SingleRowHeaders(ExportRow(f));
  }

  lemma ExportHeadersPlain()
    ensures Distinct(ExportHeaders)
    ensures forall h :: h in ExportHeaders ==> !Csv.NeedsQuoting(h)
  {
    assert !Csv.NeedsQuoting("Plant Name");
    assert !Csv.NeedsQuoting("Route");
    assert !Csv.NeedsQuoting("Notes");
    assert !Csv.NeedsQuoting("Standards");
  }
}
