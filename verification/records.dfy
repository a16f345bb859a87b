/** Shared vocabulary of the freezer and its settings editors: the records of the
    `blacklist` array in blacklist.json, the rows a settings editor shows, and the
    conversions behind an editor row's delay field and type pop-up. */
module Records {

  datatype Option<+T> = None | Some(value: T) {
    function GetOr(default: T): T {
      if Some? then value else default
    }
  }

  /** A JSON value, as far as the readers of the blacklist look at it: a string,
      a number of whole seconds, or anything else (bool, null, array, object). */
  datatype Value = Str(s: string) | Num(n: nat) | Other

  /** One element of the `blacklist` array: a JSON object. */
  type Record = map<string, Value>

  /** One row of a settings editor: the `type`, `appIdentifier` and `delay`
      fields of an AppEntryView (`type` is a keyword here, hence `kind`). */
  datatype Entry = Entry(kind: string, identifier: string, delay: nat)

  /** The delay, in seconds, used wherever a delay is missing or unreadable. */
  const DefaultDelay: nat := 30

  /** `rec[key] as? String`: the string stored under `key`, if any. */
  function StringField(rec: Record, key: string): Option<string> {
    if key in rec && rec[key].Str? then Some(rec[key].s) else None
  }

  /** `rec["delay"] as? TimeInterval ?? 30`. */
  function DelayField(rec: Record): nat {
    if "delay" in rec && rec["delay"].Num? then rec["delay"].n else DefaultDelay
  }

  // ---------------------------------------------------------------------------
  // The delay text field: `String(format: "%.0f", delay)` shows a delay, and
  // `TimeInterval(text) ?? 30` reads it back.

  predicate IsDigit(c: char) {
    '0' <= c <= '9'
  }

  predicate AllDigits(s: string) {
    forall i | 0 <= i < |s| :: IsDigit(s[i])
  }

  function DigitChar(d: nat): char
    requires d < 10
  {
    ('0' as int + d) as char
  }

  /** The value of a string of decimal digits. */
  function DigitsValue(s: string): nat
    requires AllDigits(s)
    decreases |s|
  {
    if s == [] then 0
    else DigitsValue(s[..|s| - 1]) * 10 + (s[|s| - 1] as int - '0' as int)
  }

  /** `TimeInterval(text)`, restricted to whole seconds: a non-empty string of
      decimal digits reads as its value, anything else does not parse. */
  function ParseDelay(text: string): Option<nat> {
    if text != [] && AllDigits(text) then Some(DigitsValue(text)) else None
  }

  /** `delayChanged`: `TimeInterval(delayField.stringValue) ?? 30`. */
  function DelayFromText(text: string): (d: nat)
    ensures ParseDelay(text).None? ==> d == DefaultDelay
    ensures text != [] && AllDigits(text) ==> d == DigitsValue(text)
  {
    ParseDelay(text).GetOr(DefaultDelay)
  }

  /** The decimal digits of `n`, without leading zeros: what
      `String(format: "%.0f", delay)` shows for a whole number of seconds. */
  function DecimalText(n: nat): (s: string)
    ensures s != [] && AllDigits(s)
    ensures |s| > 1 ==> s[0] != '0'
    decreases n
  {
    if n < 10 then [DigitChar(n)] else DecimalText(n / 10) + [DigitChar(n % 10)]
  }

  /** Committing the delay field as it was displayed gives back the same delay. */
  lemma {:induction false} DelayTextRoundTrip(n: nat)
    ensures ParseDelay(DecimalText(n)) == Some(n)
    ensures DelayFromText(DecimalText(n)) == n
    decreases n
  {
    var s := DecimalText(n);
    if n >= 10 {
      DelayTextRoundTrip(n / 10);
      var prefix := DecimalText(n / 10);
      assert s[..|s| - 1] == prefix;
      assert DigitsValue(s) == DigitsValue(prefix) * 10 + n % 10;
    }
  }

  // ---------------------------------------------------------------------------
  // The type pop-up of the typed editors: it shows "Bundle ID" for a
  // "bundleID" row and "Glob Pattern" for any other, and `typeChanged` turns
  // the selected title back into a type.

  /** The title selected for a row of kind `kind` when the row is built. */
  function TitleForKind(kind: string): string {
    if kind == "bundleID" then "Bundle ID" else "Glob Pattern"
  }

  /** `typeChanged`: `typePopUp.selectedItem?.title == "Bundle ID" ? "bundleID" : "glob"`. */
  function KindForTitle(selected: Option<string>): string {
    if selected == Some("Bundle ID") then "bundleID" else "glob"
  }

  /** Re-selecting the title a row was shown with keeps a "bundleID" or "glob"
      row's kind; any other kind (a record without a readable "type") becomes
      "glob", which is what the pop-up had been showing. */
  lemma KindTitleRoundTrip(kind: string)
    ensures KindForTitle(Some(TitleForKind(kind))) == (if kind == "bundleID" then "bundleID" else "glob")
    ensures KindForTitle(Some(TitleForKind(kind))) == kind <==> kind == "bundleID" || kind == "glob"
  {
  }

  // ---------------------------------------------------------------------------
  // Every editor saves only the rows whose identifier is not empty.

  /** The rows with a non-empty identifier, in their original order. */
  function NonEmpty(es: seq<Entry>): seq<Entry>
    decreases |es|
  {
    if es == [] then []
    else NonEmpty(es[..|es| - 1]) + (if es[|es| - 1].identifier != "" then [es[|es| - 1]] else [])
  }

  /** The filter distributes over concatenation, so it keeps the relative order
      of the rows it keeps. */
  lemma {:induction false} NonEmptyAppend(a: seq<Entry>, b: seq<Entry>)
    ensures NonEmpty(a + b) == NonEmpty(a) + NonEmpty(b)
    decreases |b|
  {
    if b == [] {
      assert a + b == a;
    } else {
      var b' := b[..|b| - 1];
      NonEmptyAppend(a, b');
      assert (a + b)[..|a + b| - 1] == a + b';
    }
  }

  /** A row is kept exactly when its identifier is non-empty. */
  lemma {:induction false} NonEmptyMembers(es: seq<Entry>)
    ensures forall e :: e in NonEmpty(es) <==> e in es && e.identifier != ""
    ensures |NonEmpty(es)| <= |es|
    decreases |es|
  {
    if es != [] {
      var es' := es[..|es| - 1];
      NonEmptyMembers(es');
      assert es == es' + [es[|es| - 1]];
    }
  }

  /** Filtering twice is filtering once. */
  lemma {:induction false} NonEmptyIdempotent(es: seq<Entry>)
    ensures NonEmpty(NonEmpty(es)) == NonEmpty(es)
    decreases |es|
  {
    if es != [] {
      var es' := es[..|es| - 1];
      var last := es[|es| - 1];
      NonEmptyIdempotent(es');
      var tail := if last.identifier != "" then [last] else [];
      NonEmptyAppend(NonEmpty(es'), tail);
      if last.identifier != "" {
        assert [last][..0] == [];
      }
    }
  }
}
