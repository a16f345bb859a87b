/** The preferences window (PreferencesWindow.swift): an editor of glob-pattern
    rows only. Every row is a "glob" row; "Add App" puts a new row at the top,
    a row's remove button takes it out of the list, and records are read and
    written through their "pattern" and "delay" alone. */
module PreferencesWindow {
  import opened Records
  import GlobCodec
  import Lists

  /** One editable row: a pattern and its delay. Its kind is fixed when the
      row is made, since this editor has no type pop-up. */
  class AppEntryView {
    var kind: string
    var appIdentifier: string
    var delay: nat

    constructor (kind: string, identifier: string, delay: nat)
      ensures this.kind == kind && appIdentifier == identifier && this.delay == delay
    {
      this.kind := kind;
      appIdentifier := identifier;
      this.delay := delay;
    }

    /** The row's value. */
    function Row(): Entry
      reads this
    {
      Entry(kind, appIdentifier, delay)
    }

    /** `identifierChanged`: the text field's contents become the pattern. */
    method IdentifierChanged(text: string)
      modifies this
      ensures appIdentifier == text
      ensures kind == old(kind) && delay == old(delay)
    {
      appIdentifier := text;
    }

    /** `delayChanged`: the field's text, read as a number, becomes the delay;
        text that does not read as one gives 30. */
    method DelayChanged(text: string)
      modifies this
      ensures delay == DelayFromText(text)
      ensures ParseDelay(text).None? ==> delay == DefaultDelay
      ensures kind == old(kind) && appIdentifier == old(appIdentifier)
    {
      delay := ParseDelay(text).GetOr(DefaultDelay);
    }
  }

  /** The values of a list of rows. */
  function EntriesOf(views: seq<AppEntryView>): (es: seq<Entry>)
    reads views
    ensures |es| == |views|
    ensures forall i | 0 <= i < |views| :: es[i] == views[i].Row()
  {
    seq(|views|, i requires 0 <= i < |views| reads views => views[i].Row())
  }

  lemma EntriesOfSnoc(views: seq<AppEntryView>, v: AppEntryView)
    ensures EntriesOf(views + [v]) == EntriesOf(views) + [v.Row()]
  {
  }

  lemma EntriesOfAppend(a: seq<AppEntryView>, b: seq<AppEntryView>)
    ensures EntriesOf(a + b) == EntriesOf(a) + EntriesOf(b)
  {
    var l, r := EntriesOf(a + b), EntriesOf(a) + EntriesOf(b);
    assert |l| == |r|;
    forall k | 0 <= k < |l|
      ensures l[k] == r[k]
    {
      if k < |a| {
        assert (a + b)[k] == a[k];
      } else {
        assert (a + b)[k] == b[k - |a|];
      }
    }
  }

  lemma EntriesOfRemoveAt(views: seq<AppEntryView>, i: nat)
    requires i < |views|
    ensures EntriesOf(views[..i] + views[i + 1..]) == EntriesOf(views)[..i] + EntriesOf(views)[i + 1..]
  {
    EntriesOfAppend(views[..i], views[i + 1..]);
    var l, r := EntriesOf(views[..i]), EntriesOf(views)[..i];
    assert |l| == |r|;
    var l', r' := EntriesOf(views[i + 1..]), EntriesOf(views)[i + 1..];
    assert |l'| == |r'|;
    forall k | 0 <= k < |l'|
      ensures l'[k] == r'[k]
    {
      assert views[i + 1..][k] == views[i + 1 + k];
    }
  }

  /** The editor's list of rows, `appEntries`. */
  class PreferencesView {
    var appEntries: seq<AppEntryView>

    /** Every row object is in the list at most once, and every row is a
        "glob" row. */
    ghost predicate Valid()
      reads this, appEntries
    {
      && Lists.Distinct(appEntries)
      && forall i | 0 <= i < |appEntries| :: appEntries[i].kind == "glob"
    }

    function Entries(): seq<Entry>
      reads this, appEntries
    {
      EntriesOf(appEntries)
    }

    /** The view as built when the window opens: its rows are those of the
        blacklist, or none if blacklist.json could not be read. */
    constructor (blacklist: Option<seq<Record>>)
      ensures Valid()
      ensures Entries() == if blacklist.Some? then GlobCodec.Load(blacklist.value) else []
      ensures forall v | v in appEntries :: fresh(v)
    {
      appEntries := [];
      new;
      LoadAppEntries(blacklist);
      assert appEntries[0..] == appEntries;
    }

    /** `loadAppEntries`: one new "glob" row per record, appended in record
        order. */
    method LoadAppEntries(blacklist: Option<seq<Record>>)
      requires Valid()
      modifies this
      ensures Valid()
      ensures Entries() == old(Entries()) + if blacklist.Some? then GlobCodec.Load(blacklist.value) else []
      ensures |appEntries| >= |old(appEntries)| && appEntries[..|old(appEntries)|] == old(appEntries)
      ensures forall v | v in appEntries[|old(appEntries)|..] :: fresh(v)
    {
      if blacklist.None? {
        return;
      }
      var records := blacklist.value;
      ghost var added: seq<AppEntryView> := [];
      var i := 0;
      while i < |records|
        invariant 0 <= i <= |records|
        invariant appEntries == old(appEntries) + added
        invariant forall v | v in added :: fresh(v)
        invariant Valid()
        invariant Entries() == old(Entries()) + GlobCodec.Load(records[..i])
      {
        assert records[..i + 1][..i] == records[..i];
        var appEntry := AppendRow(records[i]);
        added := added + [appEntry];
        i := i + 1;
      }
      assert records[..i] == records;
      assert appEntries[..|old(appEntries)|] == old(appEntries);
      assert appEntries[|old(appEntries)|..] == added;
    }

    /** One iteration of `loadAppEntries`: a new row made from `entry` is
        appended. */
    method AppendRow(entry: Record) returns (appEntry: AppEntryView)
      requires Valid()
      modifies this
      ensures Valid()
      ensures fresh(appEntry)
      ensures appEntries == old(appEntries) + [appEntry]
      ensures Entries() == old(Entries()) + [GlobCodec.EntryOfRecord(entry)]
    {
      var pattern := StringField(entry, "pattern").GetOr("");
      var delay := DelayField(entry);
      appEntry := new AppEntryView("glob", pattern, delay);
      EntriesOfSnoc(appEntries, appEntry);
      Lists.DistinctSnoc(appEntries, appEntry);
      appEntries := appEntries + [appEntry];
    }

    /** `addApp`: a new empty "glob" row with the default delay goes in front;
        the other rows move down one place, in order. */
    method AddApp()
      requires Valid()
      modifies this
      ensures Valid()
      ensures |appEntries| == |old(appEntries)| + 1 && fresh(appEntries[0])
      ensures appEntries[1..] == old(appEntries)
      ensures Entries() == [Entry("glob", "", DefaultDelay)] + old(Entries())
    {
      var appEntry := new AppEntryView("glob", "", DefaultDelay);
      EntriesOfAppend([appEntry], appEntries);
      assert EntriesOf([appEntry]) == [Entry("glob", "", DefaultDelay)];
      appEntries := [appEntry] + appEntries;
    }

    /** A row's `onRemove` closure: the first occurrence of the row object is
        taken out of the list, and the other rows keep their order. */
    method OnRemove(appEntry: AppEntryView)
      requires Valid()
      modifies this
      ensures Valid()
      ensures appEntries == Lists.RemoveFirst(old(appEntries), appEntry)
      ensures appEntry !in appEntries
      ensures appEntry !in old(appEntries) ==> Entries() == old(Entries())
      ensures appEntry in old(appEntries) ==>
                var i := Lists.FirstIndex(old(appEntries), appEntry).value;
                Entries() == old(Entries())[..i] + old(Entries())[i + 1..]
    {
      Lists.RemoveFromDistinct(appEntries, appEntry);
      var index := Lists.FirstIndex(appEntries, appEntry);
      if index.Some? {
        var i := index.value;
        EntriesOfRemoveAt(appEntries, i);
        var rest := appEntries[..i] + appEntries[i + 1..];
        forall k | 0 <= k < |rest|
          ensures rest[k].kind == "glob"
        {
          assert rest[k] == if k < i then appEntries[k] else appEntries[k + 1];
        }
        appEntries := rest;
      }
    }

    /** `saveSettings`: the records written to blacklist.json; since every row
        is a "glob" row, loading them gives back exactly the non-empty rows. */
    method SaveSettings() returns (blacklist: seq<Record>)
      requires Valid()
      ensures blacklist == GlobCodec.Save(Entries())
      ensures GlobCodec.Load(blacklist) == NonEmpty(Entries())
    {
      blacklist := [];
      var i := 0;
      while i < |appEntries|
        invariant 0 <= i <= |appEntries|
        invariant blacklist == GlobCodec.Save(EntriesOf(appEntries[..i]))
      {
        var entry := appEntries[i];
        assert EntriesOf(appEntries[..i + 1]) == EntriesOf(appEntries[..i]) + [entry.Row()];
        if entry.appIdentifier != "" {
          var dict: Record := map["type" := Str("glob"), "pattern" := Str(entry.appIdentifier), "delay" := Num(entry.delay)];
          assert dict == GlobCodec.RecordOfEntry(entry.Row());
          blacklist := blacklist + [dict];
        }
        i := i + 1;
      }
      assert appEntries[..i] == appEntries;
      assert GlobCodec.AllGlob(Entries());
      GlobCodec.RoundTrip(Entries());
    }
  }
}
