/** Firmware variables as the boot manager and its host tool see them. */
module Store {
  import opened Basics
  import opened Ids
  import opened Journal
  import Utf8

  /** The one input error left when the store itself always answers. */
  datatype IoError = Corrupt

  const VAR_BOOT_ATTEMPT := "BootAttempt"
  const VAR_LAST_GOOD := "LastGood"
  const VAR_BOOT_ORDER := "BootOrder"

  class VarStore {
    var globals: map<string, seq<byte>>
    var vendor: map<string, seq<byte>>
    ghost const journal: Journal

    constructor (ghost journal: Journal)
      ensures globals == map[] && vendor == map[] && this.journal == journal
    {
      globals, vendor := map[], map[];
      this.journal := journal;
    }

    method Set(ns: Namespace, name: string, value: seq<byte>)
      modifies this, journal
      ensures globals == if ns == Global then old(globals)[name := value] else old(globals)
      ensures vendor == if ns == Vendor then old(vendor)[name := value] else old(vendor)
      ensures journal.records == old(journal.records) + [Wrote(ns, name, value)]
    {
      if ns == Global { globals := globals[name := value]; } else { vendor := vendor[name := value]; }
      journal.Add(Wrote(ns, name, value));
    }

    /** Deleting an absent variable succeeds and changes nothing. */
    method Delete(ns: Namespace, name: string)
      modifies this, journal
      ensures globals == if ns == Global then old(globals) - {name} else old(globals)
      ensures vendor == if ns == Vendor then old(vendor) - {name} else old(vendor)
      ensures journal.records == old(journal.records) + [Deleted(ns, name)]
    {
      if ns == Global { globals := globals - {name}; } else { vendor := vendor - {name}; }
      journal.Add(Deleted(ns, name));
    }
  }

  function Lookup(vars: map<string, seq<byte>>, name: string): Option<seq<byte>> {
    if name in vars then Some(vars[name]) else None
  }

  // ---- stored ids ----

  function IdBytes(id: EntryId): seq<byte> { Utf8.Encode(id.text) }

  /** A stored id: absent, readable, or corrupt. */
  function ReadId(bytes: Option<seq<byte>>): (r: Result<Option<EntryId>, IoError>) {
    if bytes.None? then Ok(None)
    else
      var text := Utf8.Decode(bytes.value);
      if text.None? then Err(Corrupt) else Ok(Some(EntryId(text.value)))
  }

  lemma IdRoundTrip(id: EntryId)
    ensures ReadId(Some(IdBytes(id))) == Ok(Some(id))
  {
    Utf8.RoundTrip(id.text);
  }

  // ---- the boot-attempt marker ----

  datatype Marker = Marker(entry: EntryId, confirmed: bool)

  function MarkerText(m: Marker): string {
    [if m.confirmed then '1' else '0'] + ['\t'] + m.entry.text
  }

  function MarkerBytes(m: Marker): seq<byte> { Utf8.Encode(MarkerText(m)) }

  /** `split_once('\t')`: the flag and everything after the first tab. */
  function SplitTab(s: string): (r: Option<(string, string)>) {
    var flag := Before(s, '\t');
    if |flag| == |s| then None else Some((flag, s[|flag| + 1..]))
  }

  function DecodeMarker(bytes: seq<byte>): (r: Result<Marker, IoError>) {
    var text := Utf8.Decode(bytes);
    if text.None? then Err(Corrupt)
    else
      var parts := SplitTab(text.value);
      if parts.None? then Err(Corrupt)
      else Ok(Marker(EntryId(parts.value.1), parts.value.0 == "1"))
  }

  lemma MarkerSplit(m: Marker)
    ensures SplitTab(MarkerText(m)) == Some(([if m.confirmed then '1' else '0'], m.entry.text))
  {
    var flag := [if m.confirmed then '1' else '0'];
    BeforeSeparator(flag, '\t', m.entry.text);
    assert MarkerText(m)[2..] == m.entry.text;
  }

  lemma MarkerRoundTrip(m: Marker)
    ensures DecodeMarker(MarkerBytes(m)) == Ok(m)
  {
    Utf8.RoundTrip(MarkerText(m));
    MarkerSplit(m);
  }

  /** `marker::read(..).ok().flatten()`: a corrupt marker reads as none. */
  function ReadMarker(bytes: Option<seq<byte>>): (r: Option<Marker>) {
    if bytes.Some? && DecodeMarker(bytes.value).Ok? then Some(DecodeMarker(bytes.value).value) else None
  }

  /** The bytes are a flag without a tab, a tab, and a text. */
  ghost predicate SaysMarker(bytes: seq<byte>, flag: string, text: string) {
    '\t' !in flag && bytes == Utf8.Encode(flag + "\t" + text)
  }

  /** A marker as the host tool and older boots may have left it: any flag but `1` counts as unconfirmed. */
  lemma MarkerSaid(bytes: seq<byte>, flag: string, text: string)
    requires SaysMarker(bytes, flag, text)
    ensures DecodeMarker(bytes) == Ok(Marker(EntryId(text), flag == "1"))
  {
    Utf8.RoundTrip(flag + "\t" + text);
    hide Utf8.Encode, Utf8.Decode;
    BeforeSeparator(flag, '\t', text);
    assert flag + "\t" + text == flag + ['\t'] + text;
    assert (flag + "\t" + text)[|flag| + 1..] == text;
  }

  lemma TabSplit(s: string)
    requires SplitTab(s).Some?
    ensures var (flag, text) := SplitTab(s).value; s == flag + "\t" + text && '\t' !in flag
  {
    var n := |Before(s, '\t')|;
    assert s == s[..n] + [s[n]] + s[n + 1..];
  }

  lemma MarkerReadable(bytes: seq<byte>) returns (flag: string, text: string)
    requires DecodeMarker(bytes).Ok?
    ensures SaysMarker(bytes, flag, text)
  {
    hide Utf8.Encode, Utf8.Decode, SplitTab;
    Utf8.DecodedExact(bytes);
    var s := Utf8.Decode(bytes).value;
    TabSplit(s);
    flag, text := SplitTab(s).value.0, SplitTab(s).value.1;
  }

  /** The two markers the boot manager and the host tool write, byte for byte. */
  lemma MarkerTexts(id: EntryId)
    ensures SaysMarker(MarkerBytes(Marker(id, false)), "0", id.text)
    ensures SaysMarker(MarkerBytes(Marker(id, true)), "1", id.text)
  {
    hide Utf8.Encode;
    assert MarkerText(Marker(id, false)) == "0" + "\t" + id.text;
    assert MarkerText(Marker(id, true)) == "1" + "\t" + id.text;
  }

  method Arm(vars: VarStore, entry: EntryId)
    modifies vars, vars.journal
    ensures vars.globals == old(vars.globals)
    ensures vars.vendor == old(vars.vendor)[VAR_BOOT_ATTEMPT := MarkerBytes(Marker(entry, false))]
    ensures vars.journal.records ==
            old(vars.journal.records) + [Wrote(Vendor, VAR_BOOT_ATTEMPT, MarkerBytes(Marker(entry, false)))]
  {
    vars.Set(Vendor, VAR_BOOT_ATTEMPT, MarkerBytes(Marker(entry, false)));
  }

  method Clear(vars: VarStore)
    modifies vars, vars.journal
    ensures vars.globals == old(vars.globals)
    ensures vars.vendor == old(vars.vendor) - {VAR_BOOT_ATTEMPT}
    ensures vars.journal.records == old(vars.journal.records) + [Deleted(Vendor, VAR_BOOT_ATTEMPT)]
  {
    vars.Delete(Vendor, VAR_BOOT_ATTEMPT);
  }

  method SetLastGood(vars: VarStore, entry: EntryId)
    modifies vars, vars.journal
    ensures vars.globals == old(vars.globals)
    ensures vars.vendor == old(vars.vendor)[VAR_LAST_GOOD := IdBytes(entry)]
    ensures vars.journal.records == old(vars.journal.records) + [Wrote(Vendor, VAR_LAST_GOOD, IdBytes(entry))]
  {
    vars.Set(Vendor, VAR_LAST_GOOD, IdBytes(entry));
  }

  // ---- blessing, from the booted system ----

  datatype BlessError = NoMarker | CorruptMarker | NoPendingBoot

  /** The marker `myboot bless` writes back, without `--entry`. */
  function Blessed(bytes: Option<seq<byte>>): (r: Result<seq<byte>, BlessError>) {
    if bytes.None? then Err(NoMarker)
    else
      var text := Utf8.Decode(bytes.value);
      if text.None? then Err(CorruptMarker)
      else
        var parts := SplitTab(text.value);
        var id := if parts.Some? then parts.value.1 else "";
        if id == "" then Err(NoPendingBoot) else Ok(Utf8.Encode("1\t" + id))
  }

  method Bless(vars: VarStore) returns (r: Result<(), BlessError>)
    modifies vars, vars.journal
    ensures vars.globals == old(vars.globals)
    ensures match Blessed(Lookup(old(vars.vendor), VAR_BOOT_ATTEMPT))
            case Ok(bytes) =>
              && r.Ok? && vars.vendor == old(vars.vendor)[VAR_BOOT_ATTEMPT := bytes]
              && vars.journal.records == old(vars.journal.records) + [Wrote(Vendor, VAR_BOOT_ATTEMPT, bytes)]
            case Err(e) =>
              r == Err(e) && vars.vendor == old(vars.vendor) && vars.journal.records == old(vars.journal.records)
  {
    var marker := Blessed(Lookup(vars.vendor, VAR_BOOT_ATTEMPT));
    if marker.Err? { return Err(marker.error); }
    vars.Set(Vendor, VAR_BOOT_ATTEMPT, marker.value);
    r := Ok(());
  }

  /** Blessing succeeds exactly on readable markers that name an entry, and confirms that very entry. */
  lemma BlessConfirms(bytes: seq<byte>)
    ensures Blessed(Some(bytes)).Ok? <==> DecodeMarker(bytes).Ok? && DecodeMarker(bytes).value.entry.text != ""
    ensures Blessed(Some(bytes)).Ok? ==>
            Blessed(Some(bytes)).value == MarkerBytes(Marker(DecodeMarker(bytes).value.entry, true))
  {
    if Blessed(Some(bytes)).Ok? {
      var m := DecodeMarker(bytes).value;
      assert MarkerText(Marker(m.entry, true)) == "1\t" + m.entry.text;
    }
  }

  /** Why there is nothing to bless: no marker, one that is no text, or one that names no entry. */
  lemma BlessRefused(bytes: Option<seq<byte>>)
    ensures Blessed(bytes) == Err(NoMarker) <==> bytes.None?
    ensures Blessed(bytes) == Err(CorruptMarker) <==> bytes.Some? && forall s :: bytes.value != Utf8.Encode(s)
    ensures Blessed(bytes) == Err(NoPendingBoot) <==>
            && bytes.Some? && (exists s :: bytes.value == Utf8.Encode(s))
            && forall flag, text :: SaysMarker(bytes.value, flag, text) ==> text == ""
  {
    if bytes.Some? {
      forall s ensures bytes.value == Utf8.Encode(s) ==> Utf8.Decode(bytes.value) == Some(s) { Utf8.RoundTrip(s); }
      if Utf8.Decode(bytes.value).Some? { Utf8.DecodedExact(bytes.value); }
      BlessConfirms(bytes.value);
      hide SaysMarker, Utf8.Encode, Utf8.Decode;
      forall flag, text | SaysMarker(bytes.value, flag, text)
        ensures DecodeMarker(bytes.value) == Ok(Marker(EntryId(text), flag == "1"))
      {
        MarkerSaid(bytes.value, flag, text);
      }
      if DecodeMarker(bytes.value).Ok? { var flag, text := MarkerReadable(bytes.value); }
    }
  }

  /** On a marker the boot manager wrote, blessing flips the flag and nothing else. */
  lemma BlessFlips(m: Marker)
    requires m.entry.text != ""
    ensures Blessed(Some(MarkerBytes(m))) == Ok(MarkerBytes(m.(confirmed := true)))
  {
    MarkerRoundTrip(m);
    BlessConfirms(MarkerBytes(m));
  }
}
