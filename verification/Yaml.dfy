/**
 The configuration-space parser of src/yaml_configspace.c, from the events libyaml delivers.  A
 scalar carries its text and what strtoul made of it.
 */
module Yaml {
  import opened Bits
  import opened Crc
  import opened Frames

  const ERANGE := -34
  const FIELDS := 19
  /** The states PARSE_VENDOR_ID .. PARSE_MAX_LAT are 0 .. 18. */
  const DONE := 19
  const PARSE_KEY := 20
  const HEADER := 64

  datatype Event =
    | End                                             // no event, or the end of a mapping, document or stream
    | Scalar(text: string, number: nat, clean: bool)  // clean: strtoul took the whole text without overflow
    | Other

  const KEYS := [
    "vendor_id", "device_id", "command", "status", "revision_id", "class_code", "cache_line_size",
    "latency_timer", "header_type", "bist", "cardbus_cis_pointer", "subsystem_vendor_id", "subsystem_id",
    "expansion_rom_base_address", "capabilities_pointer", "interrupt_line", "interrupt_pin", "min_gnt", "max_lat"]

  // ---------------------------------------------------------------- the fields of the header

  /** Where a field lies in the header, and how many bytes it has. */
  function Offset(k: nat): (o: nat)
    requires k < FIELDS
  {
    [0, 2, 4, 6, 8, 9, 12, 13, 14, 15, 40, 44, 46, 48, 52, 60, 61, 62, 63][k]
  }

  function Width(k: nat): (w: nat)
    requires k < FIELDS
    ensures 1 <= w <= 4
  {
    [2, 2, 2, 2, 1, 3, 1, 1, 1, 1, 4, 2, 2, 4, 1, 1, 1, 1, 1][k]
  }

  lemma FieldInside(k: nat)
    requires k < FIELDS
    ensures Offset(k) + Width(k) <= HEADER
  {
  }

  lemma NextField(k: nat)
    requires k + 1 < FIELDS
    ensures Offset(k) + Width(k) <= Offset(k + 1)
  {
  }

  /** Fields do not overlap: they lie in the order of their keys. */
  lemma {:induction false} FieldsApart(j: nat, k: nat)
    requires j < k < FIELDS
    ensures Offset(j) + Width(j) <= Offset(k)
  {
    hide Offset, Width;
    NextField(k - 1);
    if j < k - 1 { FieldsApart(j, k - 1); }
  }

  function Field(h: seq<byte>, k: nat): (f: seq<byte>)
    requires k < FIELDS && |h| == HEADER
    ensures |f| == Width(k)
  {
    FieldInside(k);
    h[Offset(k)..Offset(k) + Width(k)]
  }

  /** A field set to a number, little-endian and cut to its width. */
  function SetField(h: seq<byte>, k: nat, n: nat): (r: seq<byte>)
    requires k < FIELDS && |h| == HEADER
    ensures |r| == HEADER
  {
    FieldInside(k);
    Overlay(h, Offset(k), Trailer(n, Width(k)))
  }

  /** Byte i belongs to no field: a BAR or reserved. */
  predicate Uncovered(i: nat) {
    forall k :: 0 <= k < FIELDS ==> !(Offset(k) <= i < Offset(k) + Width(k))
  }

  /** The six BARs and the reserved bytes. */
  lemma BarsUncovered(i: nat)
    requires 16 <= i < 40 || 53 <= i < 60
    ensures Uncovered(i)
  {
    forall k | 0 <= k < FIELDS
      ensures !(Offset(k) <= i < Offset(k) + Width(k))
    {
      OutsideGaps(k);
    }
  }

  lemma OutsideGaps(k: nat)
    requires k < FIELDS
    ensures Offset(k) + Width(k) <= 16 || (40 <= Offset(k) && Offset(k) + Width(k) <= 53) || 60 <= Offset(k)
  {
  }

  lemma SetThenGet(h: seq<byte>, k: nat, n: nat, j: nat)
    requires k < FIELDS && j < FIELDS && |h| == HEADER
    ensures Field(SetField(h, k, n), j) == if j == k then Trailer(n, Width(k)) else Field(h, j)
  {
    hide Offset, Width, Trailer;
    FieldInside(k);
    FieldInside(j);
    if j < k { FieldsApart(j, k); } else if k < j { FieldsApart(k, j); }
    OverlayWindow(h, Offset(k), Trailer(n, Width(k)), Offset(j), Width(j));
  }

  lemma OverlayWindow(h: seq<byte>, at: nat, d: seq<byte>, o: nat, w: nat)
    requires at + |d| <= |h| && o + w <= |h|
    requires o + w <= at || at + |d| <= o || (o == at && w == |d|)
    ensures Overlay(h, at, d)[o..o + w] == if o == at && w == |d| then d else h[o..o + w]
  {
  }

  lemma SetKeepsRest(h: seq<byte>, k: nat, n: nat, i: nat)
    requires k < FIELDS && |h| == HEADER && i < HEADER && Uncovered(i)
    ensures SetField(h, k, n)[i] == h[i]
  {
    hide Offset, Width, Trailer;
    FieldInside(k);
    assert !(Offset(k) <= i < Offset(k) + Width(k));
  }

  // ---------------------------------------------------------------- one event

  /** The first key equal to the text from i on, or none. */
  function KeyFrom(text: string, i: nat): (k: nat)
    requires i <= FIELDS
    ensures i <= k <= FIELDS && (k < FIELDS ==> KEYS[k] == text)
    ensures forall j :: i <= j < k ==> KEYS[j] != text
    decreases FIELDS - i
  {
    if i == FIELDS || KEYS[i] == text then i else KeyFrom(text, i + 1)
  }

  /** State after an event, in which the result is what `process_event` returns. */
  datatype Outcome = Outcome(state: nat, header: seq<byte>, ret: int)

  /** A value is stored even when strtoul complains; an unknown key leaves the parser waiting for a
      key. */
  function Process(e: Event, state: nat, h: seq<byte>): (o: Outcome)
    requires state <= PARSE_KEY && |h| == HEADER
    ensures |o.header| == HEADER && o.state <= PARSE_KEY
  {
    match e
    case End => Outcome(DONE, h, 0)
    case Other => Outcome(state, h, 0)
    case Scalar(text, n, clean) =>
      if state == PARSE_KEY then
        var k := KeyFrom(text, 0);
        Outcome(if k < FIELDS then k else PARSE_KEY, h, 0)
      else if state == DONE then Outcome(DONE, h, if clean then 0 else ERANGE)
      else Outcome(PARSE_KEY, SetField(h, state, n), if clean then 0 else ERANGE)
  }

  // The fields of one, two, three and four bytes, split as the source splits them.

  method Put1(h: array<byte>, at: nat, n: nat)
    requires h.Length == HEADER && at + 1 <= HEADER
    modifies h
    ensures h[..] == Overlay(old(h[..]), at, Trailer(n, 1))
  {
    h[at] := n % 256;
    assert h[..] == Overlay(old(h[..]), at, [n % 256]);
  }

  method Put2(h: array<byte>, at: nat, n: nat)
    requires h.Length == HEADER && at + 2 <= HEADER
    modifies h
    ensures h[..] == Overlay(old(h[..]), at, Trailer(n, 2))
  {
    h[at + 1], h[at] := n / 256 % 256, n % 256;
    assert h[..] == Overlay(old(h[..]), at, [n % 256, n / 256 % 256]);
  }

  method Put3(h: array<byte>, at: nat, n: nat)
    requires h.Length == HEADER && at + 3 <= HEADER
    modifies h
    ensures h[..] == Overlay(old(h[..]), at, Trailer(n, 3))
  {
    h[at + 2], h[at + 1], h[at] := n / 65536 % 256, n / 256 % 256, n % 256;
    DivDiv(n, 256, 256);
    TrailerOf3(n);
    assert h[..] == Overlay(old(h[..]), at, [n % 256, n / 256 % 256, n / 65536 % 256]);
  }

  lemma TrailerOf3(n: nat)
    requires n / 256 / 256 == n / 65536
    ensures Trailer(n, 3) == [n % 256, n / 256 % 256, n / 65536 % 256]
  {
    assert Trailer(n / 256, 2) == [n / 256 % 256] + Trailer(n / 256 / 256, 1);
  }

  /** A 32-bit field, in the byte order of a little-endian host. */
  method Put4(h: array<byte>, at: nat, n: nat)
    requires h.Length == HEADER && at + 4 <= HEADER
    modifies h
    ensures h[..] == Overlay(old(h[..]), at, Trailer(n, 4))
  {
    var t := Trailer(n, 4);
    h[at + 3], h[at + 2], h[at + 1], h[at] := t[3], t[2], t[1], t[0];
    assert h[..] == Overlay(old(h[..]), at, t);
  }

  /** The assignments of `process_event`, one case per field. */
  method StoreField(state: nat, n: nat, h: array<byte>)
    requires state < FIELDS && h.Length == HEADER
    modifies h
    ensures h[..] == SetField(old(h[..]), state, n)
  {
    hide Trailer, Overlay;
    match state {
      case 0 => Put2(h, 0, n);
      case 1 => Put2(h, 2, n);
      case 2 => Put2(h, 4, n);
      case 3 => Put2(h, 6, n);
      case 4 => Put1(h, 8, n);
      case 5 => Put3(h, 9, n);
      case 6 => Put1(h, 12, n);
      case 7 => Put1(h, 13, n);
      case 8 => Put1(h, 14, n);
      case 9 => Put1(h, 15, n);
      case 10 => Put4(h, 40, n);
      case 11 => Put2(h, 44, n);
      case 12 => Put2(h, 46, n);
      case 13 => Put4(h, 48, n);
      case 14 => Put1(h, 52, n);
      case 15 => Put1(h, 60, n);
      case 16 => Put1(h, 61, n);
      case 17 => Put1(h, 62, n);
      case _ => Put1(h, 63, n);
    }
  }

  /** `process_event` */
  method ProcessEvent(e: Event, state: nat, h: array<byte>) returns (next: nat, ret: int)
    requires state <= PARSE_KEY && h.Length == HEADER
    modifies h
    ensures Outcome(next, h[..], ret) == Process(e, state, old(h[..]))
  {
    hide SetField;
    next, ret := state, 0;
    match e
    case End => next := DONE;
    case Other =>
    case Scalar(text, n, clean) =>
      if state == PARSE_KEY {
        for i := 0 to FIELDS
          invariant next == PARSE_KEY && KeyFrom(text, i) == KeyFrom(text, 0)
        {
          if text == KEYS[i] {
            next := i;
            break;
          }
        }
      } else {
        if state != DONE {
          StoreField(state, n, h);
          next := PARSE_KEY;
        }
        if !clean {
          ret := ERANGE;
        }
      }
  }

  // ---------------------------------------------------------------- the event loop

  /** Events until one finishes or fails; libyaml running out of events is a failure. */
  function Run(events: seq<Event>, state: nat, h: seq<byte>): (r: (int, seq<byte>))
    requires state <= PARSE_KEY && |h| == HEADER
    ensures |r.1| == HEADER
  {
    if events == [] then (-1, h)
    else
      var o := Process(events[0], state, h);
      if o.state == DONE || o.ret != 0 then (o.ret, o.header) else Run(events[1..], o.state, o.header)
  }

  /** `pcie_configuration_space_header_from_yaml` */
  method FromYaml(events: seq<Event>, h: array<byte>) returns (ret: int)
    requires h.Length == HEADER
    modifies h
    ensures (ret, h[..]) == Run(events, PARSE_KEY, old(h[..]))
  {
    hide Process;
    var state: nat := PARSE_KEY;
    var i := 0;
    ret := 0;
    while true
      invariant i <= |events| && state <= PARSE_KEY
      invariant Run(events[i..], state, h[..]) == Run(events, PARSE_KEY, old(h[..]))
      decreases |events| - i
    {
      if i == |events| {
        return -1;
      }
      assert events[i..][1..] == events[i + 1..];
      state, ret := ProcessEvent(events[i], state, h);
      i := i + 1;
      if state == DONE || ret != 0 {
        return;
      }
    }
  }

  // ---------------------------------------------------------------- keys by their text

  /** struct pcie_configuration_space_header_type0: the first byte and the number of bytes of the member
      that a key names; no bytes for any other text. */
  function Layout(text: string): (nat, nat) {
    if text == "vendor_id" then (0, 2)
    else if text == "device_id" then (2, 2)
    else if text == "command" then (4, 2)
    else if text == "status" then (6, 2)
    else if text == "revision_id" then (8, 1)
    else if text == "class_code" then (9, 3)
    else if text == "cache_line_size" then (12, 1)
    else if text == "latency_timer" then (13, 1)
    else if text == "header_type" then (14, 1)
    else if text == "bist" then (15, 1)
    else if text == "cardbus_cis_pointer" then (40, 4)
    else if text == "subsystem_vendor_id" then (44, 2)
    else if text == "subsystem_id" then (46, 2)
    else if text == "expansion_rom_base_address" then (48, 4)
    else if text == "capabilities_pointer" then (52, 1)
    else if text == "interrupt_line" then (60, 1)
    else if text == "interrupt_pin" then (61, 1)
    else if text == "min_gnt" then (62, 1)
    else if text == "max_lat" then (63, 1)
    else (0, 0)
  }

  lemma LayoutOf(k: nat)
    requires k < FIELDS
    ensures Layout(KEYS[k]) == (Offset(k), Width(k))
  {
  }

  lemma KeyIff(text: string)
    ensures KeyFrom(text, 0) < FIELDS <==> Layout(text).1 > 0
  {
    var k := KeyFrom(text, 0);
    if k < FIELDS { LayoutOf(k); } else { NoKey(text); }
  }

  lemma NoKey(text: string)
    requires forall j :: 0 <= j < FIELDS ==> KEYS[j] != text
    ensures Layout(text) == (0, 0)
  {
    assert KEYS[0] != text;
    assert KEYS[1] != text;
    assert KEYS[2] != text;
    assert KEYS[3] != text;
    assert KEYS[4] != text;
    assert KEYS[5] != text;
    assert KEYS[6] != text;
    assert KEYS[7] != text;
    assert KEYS[8] != text;
    assert KEYS[9] != text;
    assert KEYS[10] != text;
    assert KEYS[11] != text;
    assert KEYS[12] != text;
    assert KEYS[13] != text;
    assert KEYS[14] != text;
    assert KEYS[15] != text;
    assert KEYS[16] != text;
    assert KEYS[17] != text;
    assert KEYS[18] != text;
  }

  /** A key and its number change exactly the bytes of the member the key names; a number that strtoul
      does not take whole is stored too, and ends the parsing with -ERANGE. */
  lemma EntryByText(h: seq<byte>, key: Event, value: Event, rest: seq<Event>)
    requires |h| == HEADER && key.Scalar? && value.Scalar? && Layout(key.text).1 > 0
    ensures var (o, w) := Layout(key.text);
      && o + w <= HEADER
      && var h' := Overlay(h, o, Trailer(value.number, w));
         Run([key, value] + rest, PARSE_KEY, h) == if value.clean then Run(rest, PARSE_KEY, h') else (-34, h')
  {
    hide KeyFrom, Layout, Offset, Width, Trailer;
    KeyIff(key.text);
    var k := KeyFrom(key.text, 0);
    LayoutOf(k);
    FieldInside(k);
    var events := [key, value] + rest;
    assert events[1..] == [value] + rest && ([value] + rest)[1..] == rest;
    assert Run(events, PARSE_KEY, h) == Run([value] + rest, k, h);
  }

  /** Any other text in the place of a key is skipped: what follows it is taken for a key again. */
  lemma UnknownSkipped(h: seq<byte>, key: Event, rest: seq<Event>)
    requires |h| == HEADER && key.Scalar? && Layout(key.text).1 == 0
    ensures Run([key] + rest, PARSE_KEY, h) == Run(rest, PARSE_KEY, h)
  {
    hide KeyFrom, Layout;
    KeyIff(key.text);
    assert ([key] + rest)[1..] == rest;
  }

  // ---------------------------------------------------------------- parsing what was printed

  /** A key with its number, as two scalars. */
  datatype Entry = Entry(key: nat, number: nat)

  predicate Known(entries: seq<Entry>) {
    forall i :: 0 <= i < |entries| ==> entries[i].key < FIELDS
  }

  function KeyEvent(k: nat): Event
    requires k < FIELDS
  {
    Scalar(KEYS[k], 0, false)
  }

  function Events(entries: seq<Entry>): seq<Event>
    requires Known(entries)
  {
    if entries == [] then [End]
    else [KeyEvent(entries[0].key), Scalar("", entries[0].number, true)] + Events(entries[1..])
  }

  /** The entries stored one after the other. */
  function Update(h: seq<byte>, entries: seq<Entry>): (r: seq<byte>)
    requires |h| == HEADER && Known(entries)
    ensures |r| == HEADER
    decreases |entries|
  {
    if entries == [] then h else Update(SetField(h, entries[0].key, entries[0].number), entries[1..])
  }

  lemma KeysDistinct(j: nat, k: nat)
    requires j < k < FIELDS
    ensures KEYS[j] != KEYS[k]
  {
  }

  lemma KeyFound(k: nat)
    requires k < FIELDS
    ensures KeyFrom(KEYS[k], 0) == k
  {
    var j := KeyFrom(KEYS[k], 0);
    if j < k { KeysDistinct(j, k); }
  }

  /** Known keys alternating with numbers, then an end: result 0, every entry stored in order. */
  lemma {:induction false} ParsesEntries(h: seq<byte>, entries: seq<Entry>)
    requires |h| == HEADER && Known(entries)
    ensures Run(Events(entries), PARSE_KEY, h) == (0, Update(h, entries))
    decreases |entries|
  {
    hide SetField, KeyFrom;
    if entries != [] {
      var e := Events(entries);
      var k := entries[0].key;
      KeyFound(k);
      assert e[1..][1..] == Events(entries[1..]);
      ParsesEntries(SetField(h, k, entries[0].number), entries[1..]);
      assert Run(e, PARSE_KEY, h) == Run(e[1..], k, h);
    }
  }

  /** The last number given for a key, if any. */
  function Last(entries: seq<Entry>, k: nat): (r: int)
    ensures r >= -1
  {
    if entries == [] then -1
    else
      var r := Last(entries[1..], k);
      if r >= 0 then r else if entries[0].key == k then entries[0].number else -1
  }

  /** The last entry of a key wins; fields without an entry, BARs and reserved bytes are untouched. */
  lemma {:induction false} LastWins(h: seq<byte>, entries: seq<Entry>, k: nat)
    requires |h| == HEADER && Known(entries) && k < FIELDS
    ensures Field(Update(h, entries), k)
      == if Last(entries, k) < 0 then Field(h, k) else Trailer(Last(entries, k), Width(k))
    decreases |entries|
  {
    hide SetField, Field, Width, Trailer;
    if entries != [] {
      SetThenGet(h, entries[0].key, entries[0].number, k);
      LastWins(SetField(h, entries[0].key, entries[0].number), entries[1..], k);
    }
  }

  lemma {:induction false} RestKept(h: seq<byte>, entries: seq<Entry>, i: nat)
    requires |h| == HEADER && Known(entries) && i < HEADER && Uncovered(i)
    ensures Update(h, entries)[i] == h[i]
    decreases |entries|
  {
    hide SetField, Uncovered;
    if entries != [] {
      SetKeepsRest(h, entries[0].key, entries[0].number, i);
      RestKept(SetField(h, entries[0].key, entries[0].number), entries[1..], i);
    }
  }

  /** The entries print header h: each carries the value its field has there, and every key occurs. */
  ghost predicate Prints(entries: seq<Entry>, h: seq<byte>)
    requires |h| == HEADER
  {
    && Known(entries)
    && (forall i :: 0 <= i < |entries| ==> entries[i].number == Word(Field(h, entries[i].key)))
    && (forall k :: 0 <= k < FIELDS ==> Occurs(entries, k))
  }

  predicate Occurs(entries: seq<Entry>, k: nat) {
    exists i :: 0 <= i < |entries| && entries[i].key == k
  }

  lemma {:induction false} LastOccurs(entries: seq<Entry>, k: nat, i: nat)
    requires i < |entries| && entries[i].key == k
    ensures Last(entries, k) >= 0
    ensures exists j :: 0 <= j < |entries| && entries[j].key == k && entries[j].number == Last(entries, k)
  {
    var r := Last(entries[1..], k);
    if i > 0 {
      LastOccurs(entries[1..], k, i - 1);
      var j :| 0 <= j < |entries[1..]| && entries[1..][j].key == k && entries[1..][j].number == r;
      assert entries[j + 1].number == r;
    } else if r >= 0 {
      LastFrom(entries[1..], k);
      var j :| 0 <= j < |entries[1..]| && entries[1..][j].key == k && entries[1..][j].number == r;
      assert entries[j + 1].number == r;
    }
  }

  lemma {:induction false} LastFrom(entries: seq<Entry>, k: nat)
    requires Last(entries, k) >= 0
    ensures exists j :: 0 <= j < |entries| && entries[j].key == k && entries[j].number == Last(entries, k)
  {
    if Last(entries[1..], k) >= 0 {
      LastFrom(entries[1..], k);
      var j :| 0 <= j < |entries[1..]| && entries[1..][j].key == k && entries[1..][j].number == Last(entries[1..], k);
      assert entries[j + 1].key == k;
    } else {
      assert entries[0].key == k;
    }
  }

  /** Printing any header as its keys, in any order, and parsing it over any other header succeeds,
      restores every field, and leaves the BARs and the reserved bytes as they were. */
  lemma RoundTrip(h: seq<byte>, entries: seq<Entry>, into: seq<byte>)
    requires |h| == HEADER && |into| == HEADER && Prints(entries, h)
    ensures var (ret, r) := Run(Events(entries), PARSE_KEY, into);
      && ret == 0
      && (forall k :: 0 <= k < FIELDS ==> Field(r, k) == Field(h, k))
      && (forall i :: 0 <= i < HEADER && Uncovered(i) ==> r[i] == into[i])
  {
    hide Update, Field, Width, Uncovered, Trailer, Word, Run, Events;
    ParsesEntries(into, entries);
    forall k | 0 <= k < FIELDS
      ensures Field(Update(into, entries), k) == Field(h, k)
    {
      assert Occurs(entries, k);
      var i :| 0 <= i < |entries| && entries[i].key == k;
      LastOccurs(entries, k, i);
      LastWins(into, entries, k);
      WordBound(Field(h, k));
      WordIsTrailer(Field(h, k), Word(Field(h, k)));
    }
    forall i | 0 <= i < HEADER && Uncovered(i)
      ensures Update(into, entries)[i] == into[i]
    {
      RestKept(into, entries, i);
    }
  }
}
