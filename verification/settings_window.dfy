/** The settings window built into the freezer (SettingsWindow.swift): the same
    typed blacklist rows as the stand-alone settings application, except that
    "Add App" appends the new row at the bottom, and a row's remove button only
    takes the row off the screen, leaving it in the list that is saved. */
module SettingsWindow {
  import opened Records
  import TypedCodec
  import Lists

  /** One editable row; `inStack` says whether the row is shown in the
      editor's stack view. */
  class AppEntryView {
    var kind: string
    var appIdentifier: string
    var delay: nat
    var inStack: bool

    constructor (kind: string, identifier: string, delay: nat)
      ensures this.kind == kind && appIdentifier == identifier && this.delay == delay
      ensures !inStack
    {
      this.kind := kind;
      appIdentifier := identifier;
      this.delay := delay;
      inStack := false;
    }

    /** The row's value. */
    function Row(): Entry
      reads this
    {
      Entry(kind, appIdentifier, delay)
    }

    /** `typeChanged`: the pop-up's selected title becomes the row's kind. */
    method TypeChanged(selected: Option<string>)
      modifies this
      ensures kind == KindForTitle(selected)
      ensures kind == "bundleID" <==> selected == Some("Bundle ID")
      ensures kind == "bundleID" || kind == "glob"
      ensures appIdentifier == old(appIdentifier) && delay == old(delay) && inStack == old(inStack)
    {
      kind := if selected == Some("Bundle ID") then "bundleID" else "glob";
    }

    /** `identifierChanged`: the text field's contents become the identifier. */
    method IdentifierChanged(text: string)
      modifies this
      ensures appIdentifier == text
      ensures kind == old(kind) && delay == old(delay) && inStack == old(inStack)
    {
      appIdentifier := text;
    }

    /** `delayChanged`: the field's text, read as a number, becomes the delay;
        text that does not read as one gives 30. */
    method DelayChanged(text: string)
      modifies this
      ensures delay == DelayFromText(text)
      ensures ParseDelay(text).None? ==> delay == DefaultDelay
      ensures kind == old(kind) && appIdentifier == old(appIdentifier) && inStack == old(inStack)
    {
      delay := ParseDelay(text).GetOr(DefaultDelay);
    }

    /** `remove`: the row leaves the stack view and nothing else happens; its
        value is untouched. */
    method Remove()
      modifies this
      ensures !inStack
      ensures Row() == old(Row())
    {
      inStack := false;
    }
  }

  /** The values of a list of rows. */
  function EntriesOf(views: seq<AppEntryView>): (es: seq<Entry>)
    reads views
    ensures |es| == |views|
    ensures forall i | 0 <= i < |views| :: es[i] == views[i].Row()
  {
    seq(|views|, i requires 0 <= i < |views| reads views => views[i].Row())
  }

  lemma EntriesOfSnoc(views: seq<AppEntryView>, v: AppEntryView)
    ensures EntriesOf(views + [v]) == EntriesOf(views) + [v.Row()]
  {
  }

  lemma EntriesOfRemoveAt(views: seq<AppEntryView>, i: nat)
    requires i < |views|
    ensures EntriesOf(views[..i] + views[i + 1..]) == EntriesOf(views)[..i] + EntriesOf(views)[i + 1..]
  {
    var l, r := EntriesOf(views[..i] + views[i + 1..]), EntriesOf(views)[..i] + EntriesOf(views)[i + 1..];
    assert |l| == |r|;
    forall k | 0 <= k < |l|
      ensures l[k] == r[k]
    {
      if k < i {
        assert (views[..i] + views[i + 1..])[k] == views[k];
      } else {
        assert (views[..i] + views[i + 1..])[k] == views[k + 1];
      }
    }
  }

  /** The editor's list of rows, `appEntries`. */
  class SettingsView {
    var appEntries: seq<AppEntryView>

    /** Every row object is in the list at most once. */
    ghost predicate Valid()
      reads this
    {
      Lists.Distinct(appEntries)
    }

    function Entries(): seq<Entry>
      reads this, appEntries
    {
      EntriesOf(appEntries)
    }

    /** The view as built when the window opens: its rows are those of the
        blacklist, or none if blacklist.json could not be read. */
    constructor (blacklist: Option<seq<Record>>)
      ensures Valid()
      ensures Entries() == if blacklist.Some? then TypedCodec.Load(blacklist.value) else []
      ensures forall v | v in appEntries :: fresh(v) && v.inStack
    {
      appEntries := [];
      new;
      LoadAppEntries(blacklist);
      assert appEntries[0..] == appEntries;
    }

    /** `loadAppEntries`: one new row per record, appended in record order. */
    method LoadAppEntries(blacklist: Option<seq<Record>>)
      requires Valid()
      modifies this
      ensures Valid()
      ensures Entries() == old(Entries()) + if blacklist.Some? then TypedCodec.Load(blacklist.value) else []
      ensures |appEntries| >= |old(appEntries)| && appEntries[..|old(appEntries)|] == old(appEntries)
      ensures forall v | v in appEntries[|old(appEntries)|..] :: fresh(v) && v.inStack
    {
      if blacklist.None? {
        return;
      }
      var records := blacklist.value;
      ghost var added: seq<AppEntryView> := [];
      var i := 0;
      while i < |records|
        invariant 0 <= i <= |records|
        invariant appEntries == old(appEntries) + added
        invariant forall v | v in added :: fresh(v) && v.inStack
        invariant Valid()
        invariant Entries() == old(Entries()) + TypedCodec.Load(records[..i])
      {
        assert records[..i + 1][..i] == records[..i];
        var appEntry := AppendRow(records[i]);
        added := added + [appEntry];
        i := i + 1;
      }
      assert records[..i] == records;
      assert appEntries[..|old(appEntries)|] == old(appEntries);
      assert appEntries[|old(appEntries)|..] == added;
    }

    /** One iteration of `loadAppEntries`: a new row made from `entry` is
        appended and shown. */
    method AppendRow(entry: Record) returns (appEntry: AppEntryView)
      requires Valid()
      modifies this
      ensures Valid()
      ensures fresh(appEntry) && appEntry.inStack
      ensures appEntries == old(appEntries) + [appEntry]
      ensures Entries() == old(Entries()) + [TypedCodec.EntryOfRecord(entry)]
    {
      var kind := StringField(entry, "type").GetOr("");
      var identifier := StringField(entry, "identifier").GetOr(StringField(entry, "pattern").GetOr(""));
      var delay := DelayField(entry);
      appEntry := new AppEntryView(kind, identifier, delay);
      appEntry.inStack := true;
      EntriesOfSnoc(appEntries, appEntry);
      Lists.DistinctSnoc(appEntries, appEntry);
      appEntries := appEntries + [appEntry];
    }

    /** `addApp`: a new empty "bundleID" row with the default delay is
        appended and shown; the rows already there keep their places. */
    method AddApp()
      requires Valid()
      modifies this
      ensures Valid()
      ensures |appEntries| == |old(appEntries)| + 1
      ensures fresh(appEntries[|appEntries| - 1]) && appEntries[|appEntries| - 1].inStack
      ensures appEntries[..|old(appEntries)|] == old(appEntries)
      ensures Entries() == old(Entries()) + [Entry("bundleID", "", DefaultDelay)]
    {
      var appEntry := new AppEntryView("bundleID", "", DefaultDelay);
      appEntry.inStack := true;
      EntriesOfSnoc(appEntries, appEntry);
      Lists.DistinctSnoc(appEntries, appEntry);
      appEntries := appEntries + [appEntry];
      assert appEntries[..|old(appEntries)|] == old(appEntries);
    }

    /** What `remove` evidently means to do, as the other two editors do it:
        take the row out of `appEntries` as well, so that it is not saved. */
    method OnRemove(appEntry: AppEntryView)
      requires Valid()
      modifies this
      ensures Valid()
      ensures appEntries == Lists.RemoveFirst(old(appEntries), appEntry)
      ensures appEntry !in appEntries
      ensures appEntry !in old(appEntries) ==> Entries() == old(Entries())
      ensures appEntry in old(appEntries) ==>
                var i := Lists.FirstIndex(old(appEntries), appEntry).value;
                Entries() == old(Entries())[..i] + old(Entries())[i + 1..]
    {
      Lists.RemoveFromDistinct(appEntries, appEntry);
      var index := Lists.FirstIndex(appEntries, appEntry);
      if index.Some? {
        EntriesOfRemoveAt(appEntries, index.value);
        appEntries := appEntries[..index.value] + appEntries[index.value + 1..];
      }
    }

    /** `saveSettings`: the records written to blacklist.json. */
    method SaveSettings() returns (blacklist: seq<Record>)
      ensures blacklist == TypedCodec.Save(Entries())
      ensures TypedCodec.Load(blacklist) == NonEmpty(Entries())
    {
      blacklist := [];
      var i := 0;
      while i < |appEntries|
        invariant 0 <= i <= |appEntries|
        invariant blacklist == TypedCodec.Save(EntriesOf(appEntries[..i]))
      {
        var entry := appEntries[i];
        assert EntriesOf(appEntries[..i + 1]) == EntriesOf(appEntries[..i]) + [entry.Row()];
        if entry.appIdentifier != "" {
          var dict: Record := map["type" := Str(entry.kind), "delay" := Num(entry.delay)];
          if entry.kind == "bundleID" {
            dict := dict["identifier" := Str(entry.appIdentifier)];
          } else {
            dict := dict["pattern" := Str(entry.appIdentifier)];
          }
          assert dict == TypedCodec.RecordOfEntry(entry.Row());
          blacklist := blacklist + [dict];
        }
        i := i + 1;
      }
      assert appEntries[..i] == appEntries;
      TypedCodec.RoundTrip(Entries());
    }
  }

  /** Pressing a row's remove button and then "Save" still writes that row:
      the row is gone from the screen but not from `appEntries`. */
  method RemovedRowIsStillSaved(view: SettingsView, row: AppEntryView) returns (blacklist: seq<Record>)
    requires view.Valid() && row in view.appEntries && row.appIdentifier != ""
    modifies row
    ensures !row.inStack && row in view.appEntries
    ensures TypedCodec.RecordOfEntry(row.Row()) in blacklist
  {
    row.Remove();
    blacklist := view.SaveSettings();
    var i :| 0 <= i < |view.appEntries| && view.appEntries[i] == row;
    assert view.Entries()[i] == row.Row();
    TypedCodec.SaveMembers(view.Entries());
  }
}
