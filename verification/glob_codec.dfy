/** The record format of the glob-only preferences editor (PreferencesWindow.swift):
    every row is a "glob" row, saved as {"type": "glob", "pattern", "delay"}, and a
    record loads back from its "pattern" and "delay" alone. */
module GlobCodec {
  import opened Records

  /** One record as `loadAppEntries` reads it: only "pattern" (default "") and
      "delay" (default 30) are looked at; the row is always of kind "glob". */
  function EntryOfRecord(rec: Record): Entry {
    Entry("glob", StringField(rec, "pattern").GetOr(""), DelayField(rec))
  }

  /** One row as `saveSettings` writes it. */
  function RecordOfEntry(e: Entry): Record {
    map["type" := Str("glob"), "pattern" := Str(e.identifier), "delay" := Num(e.delay)]
  }

  predicate AllGlob(es: seq<Entry>) {
    forall i | 0 <= i < |es| :: es[i].kind == "glob"
  }

  /** `loadAppEntries`: one row per record, in record order. */
  function Load(records: seq<Record>): seq<Entry>
    decreases |records|
  {
    if records == [] then []
    else Load(records[..|records| - 1]) + [EntryOfRecord(records[|records| - 1])]
  }

  /** `saveSettings`: a record for every row with a non-empty identifier, in row order. */
  function Save(entries: seq<Entry>): seq<Record>
    decreases |entries|
  {
    if entries == [] then []
    else
      var last := entries[|entries| - 1];
      Save(entries[..|entries| - 1]) + (if last.identifier != "" then [RecordOfEntry(last)] else [])
  }

  /** `loadAppEntries` yields one "glob" row per record, in record order,
      identifier from "pattern" only and delay defaulting to 30. */
  lemma {:induction false} LoadSpec(records: seq<Record>)
    ensures |Load(records)| == |records|
    ensures AllGlob(Load(records))
    ensures forall i | 0 <= i < |records| ::
              Load(records)[i] == Entry("glob", StringField(records[i], "pattern").GetOr(""), DelayField(records[i]))
    decreases |records|
  {
    if records != [] {
      LoadSpec(records[..|records| - 1]);
    }
  }

  /** `saveSettings` writes the non-empty rows, in order; every record has type
      "glob", the identifier under "pattern", and the delay, and nothing else. */
  lemma {:induction false} SaveSpec(entries: seq<Entry>)
    ensures |Save(entries)| == |NonEmpty(entries)|
    ensures forall i | 0 <= i < |Save(entries)| ::
              && Save(entries)[i].Keys == {"type", "pattern", "delay"}
              && Save(entries)[i]["type"] == Str("glob")
              && Save(entries)[i]["pattern"] == Str(NonEmpty(entries)[i].identifier)
              && Save(entries)[i]["delay"] == Num(NonEmpty(entries)[i].delay)
    decreases |entries|
  {
    if entries != [] {
      SaveSpec(entries[..|entries| - 1]);
    }
  }

  lemma {:induction false} LoadAppend(a: seq<Record>, b: seq<Record>)
    ensures Load(a + b) == Load(a) + Load(b)
    decreases |b|
  {
    if b == [] {
      assert a + b == a;
    } else {
      LoadAppend(a, b[..|b| - 1]);
      assert (a + b)[..|a + b| - 1] == a + b[..|b| - 1];
    }
  }

  /** Loading what `saveSettings` wrote gives back the non-empty rows' identifier
      and delay, all of kind "glob"; for the rows this editor holds, which are
      all "glob" rows, that is exactly the non-empty rows. */
  lemma {:induction false} RoundTrip(entries: seq<Entry>)
    ensures |Load(Save(entries))| == |NonEmpty(entries)|
    ensures forall i | 0 <= i < |NonEmpty(entries)| ::
              Load(Save(entries))[i] == NonEmpty(entries)[i].(kind := "glob")
    ensures AllGlob(entries) ==> Load(Save(entries)) == NonEmpty(entries)
    decreases |entries|
  {
    if entries != [] {
      var init := entries[..|entries| - 1];
      var last := entries[|entries| - 1];
      RoundTrip(init);
      LoadAppend(Save(init), if last.identifier != "" then [RecordOfEntry(last)] else []);
      if AllGlob(entries) {
        assert AllGlob(init) by {
          forall i | 0 <= i < |init| ensures init[i].kind == "glob" {
            assert init[i] == entries[i];
          }
        }
        assert last.kind == "glob";
      }
    }
  }

  /** The records that carry a non-empty "pattern" string, in order. */
  function WithPattern(records: seq<Record>): seq<Record>
    decreases |records|
  {
    if records == [] then []
    else
      var last := records[|records| - 1];
      WithPattern(records[..|records| - 1]) + (if StringField(last, "pattern").GetOr("") != "" then [last] else [])
  }

  lemma {:induction false} SaveAppend(a: seq<Entry>, b: seq<Entry>)
    ensures Save(a + b) == Save(a) + Save(b)
    decreases |b|
  {
    if b == [] {
      assert a + b == a;
    } else {
      SaveAppend(a, b[..|b| - 1]);
      assert (a + b)[..|a + b| - 1] == a + b[..|b| - 1];
    }
  }

  /** A record that this editor cannot read an identifier from (a typed
      "bundleID" record keeps it under "identifier") loads as an empty row, and
      the next save drops it, whatever other records sit beside it: saving the
      loaded blacklist writes exactly what loading and saving only the records
      with a non-empty "pattern" string would. */
  lemma {:induction false} PatternlessRecordsDropped(records: seq<Record>)
    ensures Save(Load(records)) == Save(Load(WithPattern(records)))
    ensures |Save(Load(records))| == |WithPattern(records)|
    decreases |records|
  {
    if records != [] {
      var init := records[..|records| - 1];
      var last := records[|records| - 1];
      var kept := if StringField(last, "pattern").GetOr("") != "" then [last] else [];
      PatternlessRecordsDropped(init);
      assert Load(records) == Load(init) + [EntryOfRecord(last)];
      SaveAppend(Load(init), [EntryOfRecord(last)]);
      assert Save([EntryOfRecord(last)]) == Save(Load(kept)) by {
        assert [EntryOfRecord(last)][..0] == [];
        if kept != [] {
          assert kept[..0] == [];
        }
      }
      LoadAppend(WithPattern(init), kept);
      SaveAppend(Load(WithPattern(init)), Load(kept));
    }
  }
}
