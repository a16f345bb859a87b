/** The stand-alone settings application (SettingsApp.swift): an editor of
    typed blacklist rows, where "Add App" puts a new "bundleID" row at the top
    and a row's remove button takes it out of the list; and, when its window
    closes, the search of the `ps` listing for the freezer's process id, which
    is then sent SIGUSR1. */
module SettingsApp {
  import opened Records
  import TypedCodec
  import Lists

  /** One editable row. */
  class AppEntryView {
    var kind: string
    var appIdentifier: string
    var delay: nat

    constructor (kind: string, identifier: string, delay: nat)
      ensures this.kind == kind && appIdentifier == identifier && this.delay == delay
    {
      this.kind := kind;
      appIdentifier := identifier;
      this.delay := delay;
    }

    /** The row's value. */
    function Row(): Entry
      reads this
    {
      Entry(kind, appIdentifier, delay)
    }

    /** `typeChanged`: the pop-up's selected title becomes the row's kind. */
    method TypeChanged(selected: Option<string>)
      modifies this
      ensures kind == KindForTitle(selected)
      ensures kind == "bundleID" <==> selected == Some("Bundle ID")
      ensures kind == "bundleID" || kind == "glob"
      ensures appIdentifier == old(appIdentifier) && delay == old(delay)
    {
      kind := if selected == Some("Bundle ID") then "bundleID" else "glob";
    }

    /** `identifierChanged`: the text field's contents become the identifier. */
    method IdentifierChanged(text: string)
      modifies this
      ensures appIdentifier == text
      ensures kind == old(kind) && delay == old(delay)
    {
      appIdentifier := text;
    }

    /** `delayChanged`: the field's text, read as a number, becomes the delay;
        text that does not read as one gives 30. */
    method DelayChanged(text: string)
      modifies this
      ensures delay == DelayFromText(text)
      ensures ParseDelay(text).None? ==> delay == DefaultDelay
      ensures kind == old(kind) && appIdentifier == old(appIdentifier)
    {
      delay := ParseDelay(text).GetOr(DefaultDelay);
    }
  }

  /** The values of a list of rows. */
  function EntriesOf(views: seq<AppEntryView>): (es: seq<Entry>)
    reads views
    ensures |es| == |views|
    ensures forall i | 0 <= i < |views| :: es[i] == views[i].Row()
  {
    seq(|views|, i requires 0 <= i < |views| reads views => views[i].Row())
  }

  lemma EntriesOfSnoc(views: seq<AppEntryView>, v: AppEntryView)
    ensures EntriesOf(views + [v]) == EntriesOf(views) + [v.Row()]
  {
  }

  lemma EntriesOfAppend(a: seq<AppEntryView>, b: seq<AppEntryView>)
    ensures EntriesOf(a + b) == EntriesOf(a) + EntriesOf(b)
  {
    var l, r := EntriesOf(a + b), EntriesOf(a) + EntriesOf(b);
    assert |l| == |r|;
    forall k | 0 <= k < |l|
      ensures l[k] == r[k]
    {
      if k < |a| {
        assert (a + b)[k] == a[k];
      } else {
        assert (a + b)[k] == b[k - |a|];
      }
    }
  }

  lemma EntriesOfSlice(views: seq<AppEntryView>, i: nat, j: nat)
    requires i <= j <= |views|
    ensures EntriesOf(views[i..j]) == EntriesOf(views)[i..j]
  {
    var l, r := EntriesOf(views[i..j]), EntriesOf(views)[i..j];
    assert |l| == |r|;
    forall k | 0 <= k < |l|
      ensures l[k] == r[k]
    {
      assert views[i..j][k] == views[i + k];
    }
  }

  lemma EntriesOfRemoveAt(views: seq<AppEntryView>, i: nat)
    requires i < |views|
    ensures EntriesOf(views[..i] + views[i + 1..]) == EntriesOf(views)[..i] + EntriesOf(views)[i + 1..]
  {
    EntriesOfAppend(views[..i], views[i + 1..]);
    EntriesOfSlice(views, 0, i);
    EntriesOfSlice(views, i + 1, |views|);
    assert views[..i] == views[0..i];
    assert views[i + 1..] == views[i + 1..|views|];
  }

  /** The editor's list of rows, `appEntries`. */
  class SettingsView {
    var appEntries: seq<AppEntryView>

    /** Every row object is in the list at most once. */
    ghost predicate Valid()
      reads this
    {
      Lists.Distinct(appEntries)
    }

    function Entries(): seq<Entry>
      reads this, appEntries
    {
      EntriesOf(appEntries)
    }

    /** The view as built when the window opens: its rows are those of the
        blacklist, or none if blacklist.json could not be read. */
    constructor (blacklist: Option<seq<Record>>)
      ensures Valid()
      ensures Entries() == if blacklist.Some? then TypedCodec.Load(blacklist.value) else []
      ensures forall v | v in appEntries :: fresh(v)
    {
      appEntries := [];
      new;
      LoadAppEntries(blacklist);
      assert appEntries[0..] == appEntries;
    }

    /** `loadAppEntries`: one new row per record, appended in record order. */
    method LoadAppEntries(blacklist: Option<seq<Record>>)
      requires Valid()
      modifies this
      ensures Valid()
      ensures Entries() == old(Entries()) + if blacklist.Some? then TypedCodec.Load(blacklist.value) else []
      ensures |appEntries| >= |old(appEntries)| && appEntries[..|old(appEntries)|] == old(appEntries)
      ensures forall v | v in appEntries[|old(appEntries)|..] :: fresh(v)
    {
      if blacklist.None? {
        return;
      }
      var records := blacklist.value;
      ghost var added: seq<AppEntryView> := [];
      var i := 0;
      while i < |records|
        invariant 0 <= i <= |records|
        invariant appEntries == old(appEntries) + added
        invariant forall v | v in added :: fresh(v)
        invariant Valid()
        invariant Entries() == old(Entries()) + TypedCodec.Load(records[..i])
      {
        assert records[..i + 1][..i] == records[..i];
        var appEntry := AppendRow(records[i]);
        added := added + [appEntry];
        i := i + 1;
      }
      assert records[..i] == records;
      assert appEntries[..|old(appEntries)|] == old(appEntries);
      assert appEntries[|old(appEntries)|..] == added;
    }

    /** One iteration of `loadAppEntries`: a new row made from `entry` is
        appended. */
    method AppendRow(entry: Record) returns (appEntry: AppEntryView)
      requires Valid()
      modifies this
      ensures Valid()
      ensures fresh(appEntry)
      ensures appEntries == old(appEntries) + [appEntry]
      ensures Entries() == old(Entries()) + [TypedCodec.EntryOfRecord(entry)]
    {
      var kind := StringField(entry, "type").GetOr("");
      var identifier := StringField(entry, "identifier").GetOr(StringField(entry, "pattern").GetOr(""));
      var delay := DelayField(entry);
      appEntry := new AppEntryView(kind, identifier, delay);
      EntriesOfSnoc(appEntries, appEntry);
      Lists.DistinctSnoc(appEntries, appEntry);
      appEntries := appEntries + [appEntry];
    }

    /** `addApp`: a new empty "bundleID" row with the default delay goes in
        front; the other rows move down one place, in order. */
    method AddApp()
      requires Valid()
      modifies this
      ensures Valid()
      ensures |appEntries| == |old(appEntries)| + 1 && fresh(appEntries[0])
      ensures appEntries[1..] == old(appEntries)
      ensures Entries() == [Entry("bundleID", "", DefaultDelay)] + old(Entries())
    {
      var appEntry := new AppEntryView("bundleID", "", DefaultDelay);
      EntriesOfAppend([appEntry], appEntries);
      assert EntriesOf([appEntry]) == [Entry("bundleID", "", DefaultDelay)];
      appEntries := [appEntry] + appEntries;
    }

    /** A row's `onRemove` closure: the first occurrence of the row object is
        taken out of the list, and the other rows keep their order. */
    method OnRemove(appEntry: AppEntryView)
      requires Valid()
      modifies this
      ensures Valid()
      ensures appEntries == Lists.RemoveFirst(old(appEntries), appEntry)
      ensures appEntry !in appEntries
      ensures appEntry !in old(appEntries) ==> Entries() == old(Entries())
      ensures appEntry in old(appEntries) ==>
                var i := Lists.FirstIndex(old(appEntries), appEntry).value;
                Entries() == old(Entries())[..i] + old(Entries())[i + 1..]
    {
      Lists.RemoveFromDistinct(appEntries, appEntry);
      var index := Lists.FirstIndex(appEntries, appEntry);
      if index.Some? {
        EntriesOfRemoveAt(appEntries, index.value);
        appEntries := appEntries[..index.value] + appEntries[index.value + 1..];
      }
    }

    /** `saveSettings`: the records written to blacklist.json. */
    method SaveSettings() returns (blacklist: seq<Record>)
      ensures blacklist == TypedCodec.Save(Entries())
      ensures TypedCodec.Load(blacklist) == NonEmpty(Entries())
    {
      blacklist := [];
      var i := 0;
      while i < |appEntries|
        invariant 0 <= i <= |appEntries|
        invariant blacklist == TypedCodec.Save(EntriesOf(appEntries[..i]))
      {
        var entry := appEntries[i];
        assert EntriesOf(appEntries[..i + 1]) == EntriesOf(appEntries[..i]) + [entry.Row()];
        if entry.appIdentifier != "" {
          var dict: Record := map["type" := Str(entry.kind), "delay" := Num(entry.delay)];
          if entry.kind == "bundleID" {
            dict := dict["identifier" := Str(entry.appIdentifier)];
          } else {
            dict := dict["pattern" := Str(entry.appIdentifier)];
          }
          assert dict == TypedCodec.RecordOfEntry(entry.Row());
          blacklist := blacklist + [dict];
        }
        i := i + 1;
      }
      assert appEntries[..i] == appEntries;
      TypedCodec.RoundTrip(Entries());
    }
  }

  // ---------------------------------------------------------------------------
  // Finding the freezer in the output of `ps -ax -o pid,command`.

  /** The characters `components(separatedBy: .newlines)` splits at. */
  predicate IsNewline(c: char) {
    '\n' <= c <= '\r' || c == '\U{85}' || c == '\U{2028}' || c == '\U{2029}'
  }

  /** The characters `trimmingCharacters(in: .whitespaces)` removes: tab and
      the space separators. */
  predicate IsWhitespace(c: char) {
    || c == '\t' || c == ' ' || c == '\U{A0}' || c == '\U{1680}'
    || ('\U{2000}' <= c <= '\U{200A}') || c == '\U{202F}' || c == '\U{205F}' || c == '\U{3000}'
  }

  predicate LineFree(s: string) {
    forall i | 0 <= i < |s| :: !IsNewline(s[i])
  }

  /** `output.components(separatedBy: .newlines)`: the pieces between line
      terminators, each terminator ending one piece. */
  function Lines(s: string): (lines: seq<string>)
    ensures |lines| >= 1
    ensures forall i | 0 <= i < |lines| :: LineFree(lines[i])
    decreases |s|
  {
    if s == [] then [[]]
    else
      var rest := Lines(s[1..]);
      if IsNewline(s[0]) then [[]] + rest else [[s[0]] + rest[0]] + rest[1..]
  }

  /** Text without a terminator is one line. */
  lemma {:induction false} LinesOfLineFree(s: string)
    requires LineFree(s)
    ensures Lines(s) == [s]
    decreases |s|
  {
    if s != [] {
      LinesOfLineFree(s[1..]);
      assert [s[0]] + s[1..] == s;
    }
  }

  /** The first terminator ends the first line; the rest is split the same way. */
  lemma {:induction false} LinesSplit(a: string, c: char, b: string)
    requires LineFree(a) && IsNewline(c)
    ensures Lines(a + [c] + b) == [a] + Lines(b)
    decreases |a|
  {
    if a == [] {
      assert a + [c] + b == [c] + b;
      assert ([c] + b)[1..] == b;
    } else {
      LinesSplit(a[1..], c, b);
      assert (a + [c] + b)[1..] == a[1..] + [c] + b;
      assert [a[0]] + a[1..] == a;
    }
  }

  predicate OccursAt(s: string, sub: string, i: int) {
    0 <= i && i + |sub| <= |s| && s[i..i + |sub|] == sub
  }

  /** `s.contains(sub)`. */
  predicate Contains(s: string, sub: string) {
    exists i | 0 <= i <= |s| - |sub| :: OccursAt(s, sub, i)
  }

  /** Whitespace removed from the front: what is left is a suffix. */
  function TrimLeading(s: string): (t: string)
    ensures |t| <= |s| && t == s[|s| - |t|..]
    ensures t != [] ==> !IsWhitespace(t[0])
    decreases |s|
  {
    if s != [] && IsWhitespace(s[0]) then TrimLeading(s[1..]) else s
  }

  /** Whitespace removed from the back: what is left is a prefix. */
  function TrimTrailing(s: string): (t: string)
    ensures |t| <= |s| && t == s[..|t|]
    ensures t != [] ==> !IsWhitespace(t[|t| - 1])
    decreases |s|
  {
    if s != [] && IsWhitespace(s[|s| - 1]) then TrimTrailing(s[..|s| - 1]) else s
  }

  /** `s.trimmingCharacters(in: .whitespaces)`. */
  function Trim(s: string): string {
    TrimTrailing(TrimLeading(s))
  }

  /** `s.components(separatedBy: " ").first`: everything before the first space. */
  function FirstToken(s: string): (t: string)
    ensures |t| <= |s| && t == s[..|t|]
    ensures ' ' !in t
    ensures |t| < |s| ==> s[|t|] == ' '
    decreases |s|
  {
    if s == [] || s[0] == ' ' then [] else [s[0]] + FirstToken(s[1..])
  }

  const Int32Min: int := -0x8000_0000
  const Int32Max: int := 0x7FFF_FFFF

  /** `Int32(s)`: an optional sign and at least one decimal digit, nothing
      else, and a value that fits in 32 bits. */
  function ParseInt32(s: string): Option<int> {
    var negative := s != [] && s[0] == '-';
    var digits := if s != [] && (s[0] == '-' || s[0] == '+') then s[1..] else s;
    if digits == [] || !AllDigits(digits) then None
    else
      var v: int := if negative then -(DigitsValue(digits) as int) else DigitsValue(digits);
      if Int32Min <= v <= Int32Max then Some(v) else None
  }

  /** The decimal text of a 32-bit number, as `ps` prints a pid, reads back as
      that number. */
  lemma PidTextRoundTrip(n: nat)
    ensures n <= Int32Max ==> ParseInt32(DecimalText(n)) == Some(n)
    ensures n <= -Int32Min ==> ParseInt32(['-'] + DecimalText(n)) == Some(-(n as int))
  {
    DelayTextRoundTrip(n);
    assert DecimalText(n)[0] != '-' && DecimalText(n)[0] != '+';
    assert (['-'] + DecimalText(n))[1..] == DecimalText(n);
  }

  /** The pid a line of the listing yields: the line must mention "mac_freeze",
      must not mention "SettingsApp", and must start, after its leading
      whitespace, with a token that reads as an Int32. */
  function LinePid(line: string): Option<int> {
    if Contains(line, "mac_freeze") && !Contains(line, "SettingsApp") then ParseInt32(FirstToken(Trim(line)))
    else None
  }

  /** Leading spaces are trimmed, up to the first character that is not
      whitespace. */
  lemma {:induction false} TrimLeadingSpaces(pad: string, s: string)
    requires forall i | 0 <= i < |pad| :: pad[i] == ' '
    requires s != [] && !IsWhitespace(s[0])
    ensures TrimLeading(pad + s) == s
    decreases |pad|
  {
    if pad == [] {
      assert pad + s == s;
    } else {
      assert (pad + s)[1..] == pad[1..] + s;
      TrimLeadingSpaces(pad[1..], s);
    }
  }

  /** Trailing trimming keeps a prefix that reaches past every character that
      is not whitespace. */
  lemma {:induction false} TrimTrailingKeeps(s: string, k: nat)
    requires k < |s| && !IsWhitespace(s[k])
    ensures k < |TrimTrailing(s)|
    decreases |s|
  {
    if IsWhitespace(s[|s| - 1]) {
      TrimTrailingKeeps(s[..|s| - 1], k);
    }
  }

  /** The first token of text that starts with a space-free word and a space
      is that word. */
  lemma FirstTokenOfWord(t: string, word: string)
    requires |word| < |t| && t[..|word|] == word && t[|word|] == ' '
    requires ' ' !in word
    ensures FirstToken(t) == word
  {
  }

  /** A text whose first character occurs nowhere in `prefix` is contained in
      `prefix + s` exactly when it is contained in `s`. */
  lemma ContainsAfter(prefix: string, s: string, sub: string)
    requires sub != [] && forall i | 0 <= i < |prefix| :: prefix[i] != sub[0]
    ensures Contains(prefix + s, sub) <==> Contains(s, sub)
  {
    var line := prefix + s;
    if Contains(line, sub) {
      var i :| 0 <= i <= |line| - |sub| && OccursAt(line, sub, i);
      assert line[i] == line[i..i + |sub|][0] == sub[0];
      assert i >= |prefix|;
      assert s[i - |prefix|..i - |prefix| + |sub|] == line[i..i + |sub|];
      assert OccursAt(s, sub, i - |prefix|);
    }
    if Contains(s, sub) {
      var j :| 0 <= j <= |s| - |sub| && OccursAt(s, sub, j);
      assert line[j + |prefix|..j + |prefix| + |sub|] == s[j..j + |sub|];
      assert OccursAt(line, sub, j + |prefix|);
    }
  }

  /** In a line made of spaces, then a word that starts with a character
      other than whitespace, one space, and anything that is not all
      whitespace, the first token after trimming is the word. */
  lemma TokenOfPaddedLine(pad: string, text: string, word: string, k: nat)
    requires forall i | 0 <= i < |pad| :: pad[i] == ' '
    requires word != [] && !IsWhitespace(word[0]) && ' ' !in word
    requires |word| < k < |text| && !IsWhitespace(text[k])
    requires text[..|word|] == word && text[|word|] == ' '
    ensures FirstToken(Trim(pad + text)) == word
  {
    assert text[0] == word[0];
    TrimLeadingSpaces(pad, text);
    TrimTrailingKeeps(text, k);
    var trimmed := TrimTrailing(text);
    assert trimmed[..|word|] == word by {
      assert trimmed[..|word|] == text[..|word|];
    }
    FirstTokenOfWord(trimmed, word);
  }

  /** A line of `ps -ax -o pid,command`: the pid right-aligned with spaces,
      one space, then the command. The line yields the pid exactly when the
      command mentions "mac_freeze" and not "SettingsApp"; neither the padding
      nor the pid can make up part of either word. */
  lemma PsLinePid(pad: string, pid: nat, command: string)
    requires forall i | 0 <= i < |pad| :: pad[i] == ' '
    requires pid <= Int32Max
    ensures LinePid(pad + DecimalText(pid) + [' '] + command)
            == if Contains(command, "mac_freeze") && !Contains(command, "SettingsApp") then Some(pid) else None
  {
    var digits := DecimalText(pid);
    var prefix := pad + digits + [' '];
    var line := pad + digits + [' '] + command;
    assert line == prefix + command;
    assert forall i | 0 <= i < |prefix| :: prefix[i] == ' ' || IsDigit(prefix[i]);
    ContainsAfter(prefix, command, "mac_freeze");
    ContainsAfter(prefix, command, "SettingsApp");
    if Contains(command, "mac_freeze") && !Contains(command, "SettingsApp") {
      var j :| 0 <= j <= |command| - |"mac_freeze"| && OccursAt(command, "mac_freeze", j);
      assert command[j] == command[j..j + |"mac_freeze"|][0] == 'm';
      var text := digits + [' '] + command;
      assert line == pad + text;
      assert text[..|digits|] == digits;
      assert text[|digits| + 1 + j] == 'm';
      assert IsDigit(digits[0]);
      TokenOfPaddedLine(pad, text, digits, |digits| + 1 + j);
      PidTextRoundTrip(pid);
    }
  }

  /** The pid each line of the listing yields. */
  function LinePids(lines: seq<string>): (pids: seq<Option<int>>)
    ensures |pids| == |lines|
    ensures forall i | 0 <= i < |lines| :: pids[i] == LinePid(lines[i])
  {
    seq(|lines|, i requires 0 <= i < |lines| => LinePid(lines[i]))
  }

  /** The index of the first present value. */
  function FirstSome<T>(xs: seq<Option<T>>): (r: Option<nat>)
    ensures r.None? <==> forall i | 0 <= i < |xs| :: xs[i].None?
    ensures r.Some? ==> r.value < |xs| && xs[r.value].Some?
    ensures r.Some? ==> forall j | 0 <= j < r.value :: xs[j].None?
    decreases |xs|
  {
    if xs == [] then None
    else if xs[0].Some? then Some(0)
    else
      match FirstSome(xs[1..])
      case None => None
      case Some(i) => Some(i + 1)
  }

  /** What `getMainAppPID` returns for the listing `output` (None when `ps`
      could not be run): the pid of the first line that yields one, else -1. */
  function MainAppPid(output: Option<string>): int {
    match output
    case None => -1
    case Some(text) =>
      var pids := LinePids(Lines(text));
      match FirstSome(pids)
      case None => -1
      case Some(i) => pids[i].value
  }

  /** A scan that stops at the first present value finds what `FirstSome` finds. */
  lemma FirstSomeAt<T>(xs: seq<Option<T>>, i: nat)
    requires i < |xs| && xs[i].Some?
    requires forall j | 0 <= j < i :: xs[j].None?
    ensures FirstSome(xs) == Some(i)
  {
  }

  /** A scan that finds no present value finds what `FirstSome` finds. */
  lemma FirstSomeNone<T>(xs: seq<Option<T>>)
    requires forall j | 0 <= j < |xs| :: xs[j].None?
    ensures FirstSome(xs) == None
  {
  }

  /** The body of `getMainAppPID`'s loop for one line: the pid it yields, if any. */
  method ScanLine(line: string) returns (parsed: Option<int>)
    ensures parsed == LinePid(line)
  {
    parsed := None;
    if Contains(line, "mac_freeze") && !Contains(line, "SettingsApp") {
      var components := FirstToken(Trim(line));
      parsed := ParseInt32(components);
    }
  }

  /** `getMainAppPID`'s scan of the listing's lines, returning at the first
      line that yields a pid, or -1 when none does. */
  method ScanLines(lines: seq<string>) returns (pid: int)
    ensures var pids := LinePids(lines);
            pid == match FirstSome(pids) case None => -1 case Some(i) => pids[i].value
  {
    ghost var pids := LinePids(lines);
    var i := 0;
    while i < |lines|
      invariant 0 <= i <= |lines|
      invariant forall j | 0 <= j < i :: pids[j].None?
    {
      var parsed := ScanLine(lines[i]);
      if parsed.Some? {
        FirstSomeAt(pids, i);
        return parsed.value;
      }
      i := i + 1;
    }
    FirstSomeNone(pids);
    return -1;
  }

  /** `getMainAppPID`: -1 when `ps` could not be run, otherwise the scan of
      its output's lines. */
  method GetMainAppPid(output: Option<string>) returns (pid: int)
    ensures pid == MainAppPid(output)
  {
    if output.None? {
      return -1;
    }
    pid := ScanLines(Lines(output.value));
  }

  /** `notifyMainAppToReload`: the process SIGUSR1 is sent to, if any: the
      freezer's pid when the search found a positive one. */
  method NotifyMainAppToReload(output: Option<string>) returns (target: Option<int>)
    ensures target.Some? <==> MainAppPid(output) > 0
    ensures target.Some? ==> target.value == MainAppPid(output)
  {
    var mainAppPid := GetMainAppPid(output);
    if mainAppPid > 0 {
      target := Some(mainAppPid);
    } else {
      target := None;
    }
  }
}
