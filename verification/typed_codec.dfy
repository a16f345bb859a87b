/** The record format of the typed settings editors (SettingsApp.swift and
    SettingsWindow.swift carry the same code): a row is saved as
    {"type", "delay", and "identifier" for a "bundleID" row or "pattern" for any
    other}, and a record loads back as a row with per-field defaults. */
module TypedCodec {
  import opened Records

  /** One record as `loadAppEntries` reads it: type defaults to "", the
      identifier is "identifier", else "pattern", else "", delay defaults to 30. */
  function EntryOfRecord(rec: Record): Entry {
    Entry(StringField(rec, "type").GetOr(""),
          StringField(rec, "identifier").GetOr(StringField(rec, "pattern").GetOr("")),
          DelayField(rec))
  }

  /** The key a row's identifier is saved under. */
  function IdentifierKey(kind: string): string {
    if kind == "bundleID" then "identifier" else "pattern"
  }

  /** One row as `saveSettings` writes it. */
  function RecordOfEntry(e: Entry): Record {
    map["type" := Str(e.kind), "delay" := Num(e.delay), IdentifierKey(e.kind) := Str(e.identifier)]
  }

  /** `loadAppEntries`: one row per record, in record order. */
  function Load(records: seq<Record>): seq<Entry>
    decreases |records|
  {
    if records == [] then []
    else Load(records[..|records| - 1]) + [EntryOfRecord(records[|records| - 1])]
  }

  /** `saveSettings`: a record for every row with a non-empty identifier, in row order. */
  function Save(entries: seq<Entry>): seq<Record>
    decreases |entries|
  {
    if entries == [] then []
    else
      var last := entries[|entries| - 1];
      Save(entries[..|entries| - 1]) + (if last.identifier != "" then [RecordOfEntry(last)] else [])
  }

  /** Every saved record holds exactly "type", "delay" and the identifier key of
      its kind, and loads back as the row it was made from. */
  lemma RecordShape(e: Entry)
    ensures RecordOfEntry(e).Keys == {"type", "delay", IdentifierKey(e.kind)}
    ensures "identifier" in RecordOfEntry(e) <==> e.kind == "bundleID"
    ensures "pattern" in RecordOfEntry(e) <==> e.kind != "bundleID"
    ensures EntryOfRecord(RecordOfEntry(e)) == e
  {
  }

  /** `loadAppEntries` yields one row per record, in record order, each read
      with the defaults of EntryOfRecord. */
  lemma {:induction false} LoadSpec(records: seq<Record>)
    ensures |Load(records)| == |records|
    ensures forall i | 0 <= i < |records| :: Load(records)[i] == EntryOfRecord(records[i])
    decreases |records|
  {
    if records != [] {
      LoadSpec(records[..|records| - 1]);
    }
  }

  /** `saveSettings` writes the non-empty rows, in order, one record each. */
  lemma {:induction false} SaveSpec(entries: seq<Entry>)
    ensures |Save(entries)| == |NonEmpty(entries)|
    ensures forall i | 0 <= i < |Save(entries)| :: Save(entries)[i] == RecordOfEntry(NonEmpty(entries)[i])
    decreases |entries|
  {
    if entries != [] {
      SaveSpec(entries[..|entries| - 1]);
    }
  }

  /** Loading what `saveSettings` wrote gives back exactly the non-empty rows,
      with the same type, identifier and delay. */
  lemma {:induction false} RoundTrip(entries: seq<Entry>)
    ensures Load(Save(entries)) == NonEmpty(entries)
    decreases |entries|
  {
    if entries != [] {
      var init := entries[..|entries| - 1];
      var last := entries[|entries| - 1];
      RoundTrip(init);
      LoadAppend(Save(init), if last.identifier != "" then [RecordOfEntry(last)] else []);
      RecordShape(last);
    }
  }

  lemma {:induction false} LoadAppend(a: seq<Record>, b: seq<Record>)
    ensures Load(a + b) == Load(a) + Load(b)
    decreases |b|
  {
    if b == [] {
      assert a + b == a;
    } else {
      LoadAppend(a, b[..|b| - 1]);
      assert (a + b)[..|a + b| - 1] == a + b[..|b| - 1];
    }
  }

  /** Saving only looks at the non-empty rows. */
  lemma {:induction false} SaveNonEmpty(entries: seq<Entry>)
    ensures Save(NonEmpty(entries)) == Save(entries)
    decreases |entries|
  {
    if entries != [] {
      var init := entries[..|entries| - 1];
      var last := entries[|entries| - 1];
      SaveNonEmpty(init);
      SaveAppend(NonEmpty(init), if last.identifier != "" then [last] else []);
      if last.identifier != "" {
        assert [last][..0] == [];
      }
    }
  }

  lemma {:induction false} SaveAppend(a: seq<Entry>, b: seq<Entry>)
    ensures Save(a + b) == Save(a) + Save(b)
    decreases |b|
  {
    if b == [] {
      assert a + b == a;
    } else {
      SaveAppend(a, b[..|b| - 1]);
      assert (a + b)[..|a + b| - 1] == a + b[..|b| - 1];
    }
  }

  /** Opening a saved blacklist in the editor and saving it again, untouched,
      writes the same records. */
  lemma SaveIsStable(entries: seq<Entry>)
    ensures Save(Load(Save(entries))) == Save(entries)
  {
    RoundTrip(entries);
    SaveNonEmpty(entries);
  }

  /** A row is written exactly when its identifier is non-empty: every
      non-empty row has its record in the saved list, and every saved record
      is that of some non-empty row. */
  lemma SaveMembers(entries: seq<Entry>)
    ensures forall e | e in entries && e.identifier != "" :: RecordOfEntry(e) in Save(entries)
    ensures forall r | r in Save(entries) :: exists e | e in entries :: e.identifier != "" && r == RecordOfEntry(e)
  {
    SaveSpec(entries);
    NonEmptyMembers(entries);
    var kept := NonEmpty(entries);
    forall e | e in entries && e.identifier != ""
      ensures RecordOfEntry(e) in Save(entries)
    {
      var i :| 0 <= i < |kept| && kept[i] == e;
      assert Save(entries)[i] == RecordOfEntry(e);
    }
    forall r | r in Save(entries)
      ensures exists e | e in entries :: e.identifier != "" && r == RecordOfEntry(e)
    {
      var i :| 0 <= i < |Save(entries)| && Save(entries)[i] == r;
      assert kept[i] in kept;
    }
  }
}
