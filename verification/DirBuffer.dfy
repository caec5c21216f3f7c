/** The chained-record parser for one raw directory buffer: little-endian fields, UTF-16 names, each
    record naming the distance to the next. */
module DirBuffer {
  import opened Seqs

  type Bytes = seq<nat>

  const NAME_OFFSET: nat := 88
  const DIRECTORY_BIT := 0x10

  /** One record: the name as UTF-16 code units, the attributes, and the 128-bit file id's bytes. */
  datatype Record = Record(units: seq<nat>, attributes: nat, id: Bytes)

  datatype Entry = Entry(units: seq<nat>, attributes: nat, id: Bytes, isDirectory: bool)

  predicate AreBytes(b: Bytes) { forall i :: 0 <= i < |b| ==> b[i] < 256 }

  function Read32(s: Bytes, i: nat): nat
    requires i + 4 <= |s|
  {
    s[i] + 256 * s[i + 1] + 65536 * s[i + 2] + 16777216 * s[i + 3]
  }

  function Write32(v: nat): (b: Bytes)
    ensures |b| == 4 && AreBytes(b)
  {
    var a := v / 256;
    var c := a / 256;
    [v % 256, a % 256, c % 256, c / 256 % 256]
  }

  function Units(b: Bytes): (u: seq<nat>)
    requires |b| % 2 == 0
    ensures |u| == |b| / 2
    ensures forall i :: 0 <= i < |u| ==> u[i] == b[2 * i] + 256 * b[2 * i + 1]
  {
    seq(|b| / 2, i requires 0 <= i < |b| / 2 => b[2 * i] + 256 * b[2 * i + 1])
  }

  function UnitBytes(u: seq<nat>): (b: Bytes)
    ensures |b| == 2 * |u|
  {
    if u == [] then [] else UnitBytes(u[..|u| - 1]) + [u[|u| - 1] % 256, u[|u| - 1] / 256]
  }

  /** What the strict UTF-16 decoder accepts: every surrogate is one half of a pair. */
  predicate ValidUtf16(u: seq<nat>)
    decreases |u|
  {
    if u == [] then true
    else if 0xD800 <= u[0] < 0xDC00 then |u| >= 2 && 0xDC00 <= u[1] < 0xE000 && ValidUtf16(u[2..])
    else !(0xDC00 <= u[0] < 0xE000) && ValidUtf16(u[1..])
  }

  predicate IsDot(u: seq<nat>) { u == [0x2E] || u == [0x2E, 0x2E] }

  predicate IsZero(id: Bytes) { forall i :: 0 <= i < |id| ==> id[i] == 0 }

  /** A record the parser takes: decodable, and with a real identity unless it is `.` or `..`. */
  predicate Usable(r: Record) { ValidUtf16(r.units) && (IsDot(r.units) || !IsZero(r.id)) }

  // ----- Meaning: what a buffer from some record on denotes ----------------------------------------

  function NextOf(s: Bytes): nat
    requires |s| >= NAME_OFFSET
  {
    Read32(s, 0)
  }

  /** Where the name of the first record ends. */
  function EndOf(s: Bytes): nat
    requires |s| >= NAME_OFFSET
  {
    NAME_OFFSET + Read32(s, 60)
  }

  predicate Contained(s: Bytes) {
    |s| >= NAME_OFFSET && EndOf(s) % 2 == 0 && EndOf(s) <= |s|
  }

  function RecordOf(s: Bytes): Record
    requires Contained(s)
  {
    Record(Units(s[NAME_OFFSET..EndOf(s)]), Read32(s, 56), s[72..88])
  }

  /** The next record starts at an 8-byte step, past this one, inside the buffer. */
  predicate StepsOn(s: Bytes)
    requires Contained(s)
  {
    NextOf(s) % 8 == 0 && EndOf(s) <= NextOf(s) < |s|
  }

  function Parse(s: Bytes): Option<seq<Record>>
    decreases |s|
  {
    if !Contained(s) || !Usable(RecordOf(s)) then None
    else if NextOf(s) == 0 then Some([RecordOf(s)])
    else if !StepsOn(s) then None
    else
      match Parse(s[NextOf(s)..])
      case None => None
      case Some(rest) => Some([RecordOf(s)] + rest)
  }

  function EntryOf(r: Record): Entry {
    Entry(r.units, r.attributes, r.id, r.attributes / DIRECTORY_BIT % 2 == 1)
  }

  /** The entries of a directory: every record but `.` and `..`. */
  function Entries(rs: seq<Record>): seq<Entry> {
    if rs == [] then []
    else
      var front := Entries(rs[..|rs| - 1]);
      if IsDot(rs[|rs| - 1].units) then front else front + [EntryOf(rs[|rs| - 1])]
  }

  /** The entry keeps the record's name, attributes and identity; bit 4 of the attributes is the
      directory bit. */
  predicate Describes(e: Entry, r: Record) {
    && e.units == r.units && e.attributes == r.attributes && e.id == r.id
    && (e.isDirectory <==> r.attributes / 16 % 2 == 1)
  }

  /** Neither `.` nor `..`. */
  predicate Listed(r: Record) { r.units != [0x2E] && r.units != [0x2E, 0x2E] }

  /** The entries of a listing are those of the records at these places, in order, and only `.` and
      `..` are left out. */
  ghost predicate ListsAt(rs: seq<Record>, es: seq<Entry>, places: seq<nat>) {
    && |places| == |es|
    && (forall i, j :: 0 <= i < j < |places| ==> places[i] < places[j])
    && (forall i :: 0 <= i < |places| ==> places[i] < |rs| && Describes(es[i], rs[places[i]]))
    && (forall k :: 0 <= k < |rs| ==> (k in places <==> Listed(rs[k])))
  }

  ghost predicate Lists(rs: seq<Record>, es: seq<Entry>) { exists places: seq<nat> :: ListsAt(rs, es, places) }

  lemma ListsMore(rs: seq<Record>, es: seq<Entry>, places: seq<nat>, r: Record, e: Entry)
    requires ListsAt(rs, es, places) && Listed(r) && Describes(e, r)
    ensures ListsAt(rs + [r], es + [e], places + [|rs|])
  {
    var all, now := rs + [r], places + [|rs|];
    assert forall i :: 0 <= i < |places| ==> all[now[i]] == rs[places[i]] && (es + [e])[i] == es[i];
    forall k | 0 <= k < |all|
      ensures k in now <==> Listed(all[k])
    {
      if k < |rs| {
        assert k in now <==> k in places;
        assert all[k] == rs[k];
      } else {
        assert now[|places|] == k && all[k] == r;
      }
    }
  }

  lemma ListsSame(rs: seq<Record>, es: seq<Entry>, places: seq<nat>, r: Record)
    requires ListsAt(rs, es, places) && !Listed(r)
    ensures ListsAt(rs + [r], es, places)
  {
    assert forall i :: 0 <= i < |places| ==> places[i] < |rs|;
  }

  lemma {:induction false} EntriesList(rs: seq<Record>)
    ensures Lists(rs, Entries(rs))
    decreases |rs|
  {
    if rs == [] {
      assert ListsAt(rs, Entries(rs), []);
    } else {
      var front, last := rs[..|rs| - 1], rs[|rs| - 1];
      EntriesList(front);
      var places: seq<nat> :| ListsAt(front, Entries(front), places);
      assert rs == front + [last];
      if IsDot(last.units) {
        ListsSame(front, Entries(front), places, last);
        assert ListsAt(rs, Entries(rs), places);
      } else {
        BitOfEntry(last);
        ListsMore(front, Entries(front), places, last, EntryOf(last));
        assert ListsAt(rs, Entries(rs), places + [|front|]);
      }
    }
  }

  lemma BitOfEntry(r: Record)
    ensures Describes(EntryOf(r), r)
  {
  }

  /** The directory bit is bit 4, whatever the other bits are. */
  lemma DirectoryBit(r: Record, high: nat, low: nat)
    requires r.attributes == 32 * high + low && low < 32
    ensures EntryOf(r).isDirectory <==> low >= 16
  {
    var quotient := r.attributes / 16;
    if low >= 16 {
      assert quotient == 2 * high + 1;
    } else {
      assert quotient == 2 * high;
    }
  }

  /** A directory, and a plain archived file. */
  lemma DirectoryAndArchive(units: seq<nat>, id: Bytes)
    ensures EntryOf(Record(units, 0x10, id)).isDirectory && !EntryOf(Record(units, 0x20, id)).isDirectory
  {
    DirectoryBit(Record(units, 0x10, id), 0, 16);
    DirectoryBit(Record(units, 0x20, id), 1, 0);
  }

  /** Record extents, in the order visited: inside the buffer, ascending, and never overlapping. */
  ghost predicate Apart(extents: seq<(nat, nat)>, size: nat) {
    && (forall i :: 0 <= i < |extents| ==> extents[i].0 < extents[i].1 <= size)
    && (forall i, j :: 0 <= i < j < |extents| ==> extents[i].1 <= extents[j].0)
  }

  function Prepend(seen: seq<Record>, p: Option<seq<Record>>): Option<seq<Record>> {
    match p case None => None case Some(rs) => Some(seen + rs)
  }

  lemma ParseGoesOn(seen: seq<Record>, s: Bytes)
    requires Contained(s) && Usable(RecordOf(s)) && NextOf(s) != 0 && StepsOn(s)
    ensures Prepend(seen, Parse(s)) == Prepend(seen + [RecordOf(s)], Parse(s[NextOf(s)..]))
  {
    var rest := Parse(s[NextOf(s)..]);
    if rest.Some? { assert seen + ([RecordOf(s)] + rest.value) == seen + [RecordOf(s)] + rest.value; }
  }

  lemma ReadFromSuffix(buffer: Bytes, offset: nat, i: nat)
    requires offset + i + 4 <= |buffer|
    ensures Read32(buffer[offset..], i) == Read32(buffer, offset + i)
  {
  }

  /** The record at `offset`, or the error that stops the enumeration there. */
  method ReadRecord(buffer: Bytes, offset: nat) returns (r: Option<Record>, next: nat, end: nat)
    requires offset <= |buffer|
    ensures r.Some? <==> Contained(buffer[offset..]) && Usable(RecordOf(buffer[offset..]))
    ensures r.Some? ==> r.value == RecordOf(buffer[offset..])
    ensures r.Some? ==> next == NextOf(buffer[offset..]) && end == offset + EndOf(buffer[offset..]) <= |buffer|
  {
    ghost var s := buffer[offset..];
    r, next, end := None, 0, 0;
    if offset + NAME_OFFSET > |buffer| { return; }
    ReadFromSuffix(buffer, offset, 0);
    ReadFromSuffix(buffer, offset, 56);
    ReadFromSuffix(buffer, offset, 60);
    var length := Read32(buffer, offset + 60);
    end := offset + NAME_OFFSET + length;
    if length % 2 != 0 || end > |buffer| { return; }
    assert s[NAME_OFFSET..EndOf(s)] == buffer[offset + NAME_OFFSET..end];
    assert s[72..88] == buffer[offset + 72..offset + 88];
    var units := Units(buffer[offset + NAME_OFFSET..end]);
    if !ValidUtf16(units) { return; }
    var id := buffer[offset + 72..offset + 88];
    if !IsDot(units) && IsZero(id) { return; }
    r, next := Some(Record(units, Read32(buffer, offset + 56), id)), Read32(buffer, offset);
  }

  lemma EntriesGrow(seen: seq<Record>, r: Record)
    ensures Entries(seen + [r]) == if IsDot(r.units) then Entries(seen) else Entries(seen) + [EntryOf(r)]
  {
    assert (seen + [r])[..|seen|] == seen;
  }

  /** The records before `offset` are read, and the rest of the buffer decides the rest. */
  ghost predicate Visited(buffer: Bytes, offset: nat, seen: seq<Record>, extents: seq<(nat, nat)>) {
    && offset <= |buffer| && Apart(extents, |buffer|)
    && (forall i :: 0 <= i < |extents| ==> extents[i].1 <= offset)
    && Parse(buffer) == Prepend(seen, Parse(buffer[offset..]))
  }

  lemma VisitStarts(buffer: Bytes)
    ensures Visited(buffer, 0, [], [])
  {
    assert buffer[0..] == buffer;
    var p := Parse(buffer);
    if p.Some? { assert [] + p.value == p.value; }
  }

  lemma ExtentsGrow(extents: seq<(nat, nat)>, size: nat, offset: nat, end: nat)
    requires Apart(extents, size) && (forall i :: 0 <= i < |extents| ==> extents[i].1 <= offset)
    requires offset < end <= size
    ensures Apart(extents + [(offset, end)], size)
  {
  }

  /** How one pass of the inner loop ends. */
  datatype Pass = Refused | LastRecord(record: Record, end: nat) | MoreAt(record: Record, end: nat, next: nat)

  /** The record at the head of `s`, which starts at `offset`, is good and links to a next one. */
  ghost predicate LinksOn(s: Bytes, offset: nat, p: Pass)
    requires p.MoreAt?
  {
    && Contained(s) && Usable(RecordOf(s)) && NextOf(s) != 0 && StepsOn(s)
    && p.record == RecordOf(s) && p.end == offset + EndOf(s) && p.next == offset + NextOf(s)
  }

  lemma VisitGoesOn(buffer: Bytes, offset: nat, seen: seq<Record>, extents: seq<(nat, nat)>, p: Pass)
    requires Visited(buffer, offset, seen, extents) && p.MoreAt? && LinksOn(buffer[offset..], offset, p)
    ensures Visited(buffer, p.next, seen + [p.record], extents + [(offset, p.end)]) && offset < p.next
  {
    var s := buffer[offset..];
    ParseGoesOn(seen, s);
    ExtentsGrow(extents, |buffer|, offset, p.end);
    assert s[NextOf(s)..] == buffer[p.next..];
  }

  /** Reads one record and its link. */
  method ReadPass(buffer: Bytes, offset: nat) returns (p: Pass)
    requires offset <= |buffer|
    ensures var s := buffer[offset..];
      match p
      case Refused => Parse(s) == None
      case LastRecord(record, end) => Parse(s) == Some([record]) && offset < end <= |buffer|
      case MoreAt(_, _, _) => LinksOn(s, offset, p)
  {
    var record, step, end := ReadRecord(buffer, offset);
    if record.None? { return Refused; }
    if step == 0 { return LastRecord(record.value, end); }
    if step % 8 != 0 || offset + step < end || offset + step >= |buffer| { return Refused; }
    p := MoreAt(record.value, end, offset + step);
  }

  /** The inner loop of `list_directory` on one filled buffer: it ends, reads only inside the
      buffer, never overlaps two records, and yields the meaning of the buffer. */
  method ParseBuffer(buffer: Bytes) returns (r: Option<seq<Entry>>, ghost extents: seq<(nat, nat)>)
    ensures match Parse(buffer) case None => r == None case Some(rs) => r == Some(Entries(rs)) && Lists(rs, r.value)
    ensures Apart(extents, |buffer|)
  {
    var offset: nat := 0;
    var entries: seq<Entry> := [];
    ghost var seen: seq<Record> := [];
    extents := [];
    VisitStarts(buffer);
    while true
      invariant Visited(buffer, offset, seen, extents) && entries == Entries(seen)
      decreases |buffer| - offset
    {
      var p := ReadPass(buffer, offset);
      if p.Refused? { return None, extents; }
      EntriesGrow(seen, p.record);
      if !IsDot(p.record.units) { entries := entries + [EntryOf(p.record)]; }
      if p.LastRecord? {
        ExtentsGrow(extents, |buffer|, offset, p.end);
        EntriesList(seen + [p.record]);
        return Some(entries), extents + [(offset, p.end)];
      }
      VisitGoesOn(buffer, offset, seen, extents, p);
      seen, extents := seen + [p.record], extents + [(offset, p.end)];
      offset := p.next;
    }
  }

  // ----- Serialized buffers --------------------------------------------------------------------------

  /** A record as it lies in a buffer: the fields the parser does not use, and the bytes between the
      end of its name and the next record. */
  datatype Slot = Slot(record: Record, times: Bytes, tags: Bytes, filler: Bytes)

  function SlotSize(c: Slot): nat { NAME_OFFSET + 2 * |c.record.units| + |c.filler| }

  predicate RealSlot(c: Slot) {
    && |c.times| == 52 && |c.tags| == 8 && |c.record.id| == 16
    && c.record.attributes < 0x1_0000_0000 && 2 * |c.record.units| < 0x1_0000_0000
    && (forall i :: 0 <= i < |c.record.units| ==> c.record.units[i] < 0x1_0000)
  }

  /** `next` is 0 for the last record. */
  function SlotBytes(c: Slot, next: nat): (b: Bytes)
    requires RealSlot(c)
    ensures |b| == SlotSize(c)
  {
    Write32(next) + c.times + Write32(c.record.attributes) + Write32(2 * |c.record.units|)
    + c.tags + c.record.id + UnitBytes(c.record.units) + c.filler
  }

  /** A well-laid-out buffer: every record but the last starts the next one at an 8-byte step. */
  predicate WellFormed(cs: seq<Slot>) {
    && cs != []
    && (forall i :: 0 <= i < |cs| ==> RealSlot(cs[i]))
    && (forall i :: 0 <= i < |cs| - 1 ==> SlotSize(cs[i]) % 8 == 0 && SlotSize(cs[i]) < 0x1_0000_0000)
  }

  function Serialize(cs: seq<Slot>): (b: Bytes)
    requires WellFormed(cs)
    ensures |b| >= NAME_OFFSET
  {
    if |cs| == 1 then SlotBytes(cs[0], 0) else SlotBytes(cs[0], SlotSize(cs[0])) + Serialize(cs[1..])
  }

  function Records(cs: seq<Slot>): (rs: seq<Record>)
    ensures |rs| == |cs| && forall i :: 0 <= i < |cs| ==> rs[i] == cs[i].record
  {
    seq(|cs|, i requires 0 <= i < |cs| => cs[i].record)
  }

  lemma Word(v: nat)
    requires v < 0x1_0000_0000
    ensures Read32(Write32(v), 0) == v
  {
  }

  lemma ReadSlice(s: Bytes, i: nat, w: Bytes)
    requires |w| == 4 && i + 4 <= |s| && s[i..i + 4] == w
    ensures Read32(s, i) == Read32(w, 0)
  {
    assert s[i] == s[i..i + 4][0] && s[i + 1] == s[i..i + 4][1];
    assert s[i + 2] == s[i..i + 4][2] && s[i + 3] == s[i..i + 4][3];
  }

  lemma {:induction false} UnitAt(u: seq<nat>, i: nat)
    requires i < |u|
    ensures UnitBytes(u)[2 * i] + 256 * UnitBytes(u)[2 * i + 1] == u[i]
    decreases |u|
  {
    if i < |u| - 1 {
      UnitAt(u[..|u| - 1], i);
      assert UnitBytes(u)[2 * i] == UnitBytes(u[..|u| - 1])[2 * i];
      assert UnitBytes(u)[2 * i + 1] == UnitBytes(u[..|u| - 1])[2 * i + 1];
    }
  }

  lemma UnitsRoundTrip(u: seq<nat>)
    ensures Units(UnitBytes(u)) == u
  {
    forall i | 0 <= i < |u| ensures Units(UnitBytes(u))[i] == u[i] { UnitAt(u, i); }
  }

  /** Where the fields of a slot are, whatever follows it. */
  lemma SlotFields(c: Slot, next: nat, more: Bytes)
    requires RealSlot(c)
    ensures var s := SlotBytes(c, next) + more;
      && s[0..4] == Write32(next) && s[56..60] == Write32(c.record.attributes)
      && s[60..64] == Write32(2 * |c.record.units|) && s[72..88] == c.record.id
      && s[88..88 + 2 * |c.record.units|] == UnitBytes(c.record.units) && s[SlotSize(c)..] == more
  {
  }

  lemma SlotWords(c: Slot, next: nat, more: Bytes)
    requires RealSlot(c) && next < 0x1_0000_0000
    ensures var s := SlotBytes(c, next) + more;
      && Read32(s, 0) == next && Read32(s, 56) == c.record.attributes && Read32(s, 60) == 2 * |c.record.units|
  {
    var s := SlotBytes(c, next) + more;
    SlotFields(c, next, more);
    ReadSlice(s, 0, Write32(next));
    ReadSlice(s, 56, Write32(c.record.attributes));
    ReadSlice(s, 60, Write32(2 * |c.record.units|));
    Word(next);
    Word(c.record.attributes);
    Word(2 * |c.record.units|);
  }

  lemma SlotReads(c: Slot, next: nat, more: Bytes)
    requires RealSlot(c) && next < 0x1_0000_0000
    ensures var s := SlotBytes(c, next) + more;
      Contained(s) && RecordOf(s) == c.record && NextOf(s) == next && EndOf(s) == NAME_OFFSET + 2 * |c.record.units|
  {
    SlotWords(c, next, more);
    SlotFields(c, next, more);
    FieldsMakeRecord(SlotBytes(c, next) + more, c.record, next);
  }

  /** A buffer that starts with these fields starts with this record. */
  lemma FieldsMakeRecord(s: Bytes, r: Record, next: nat)
    requires |s| >= NAME_OFFSET + 2 * |r.units|
    requires Read32(s, 0) == next && Read32(s, 56) == r.attributes && Read32(s, 60) == 2 * |r.units|
    requires s[72..88] == r.id && s[NAME_OFFSET..NAME_OFFSET + 2 * |r.units|] == UnitBytes(r.units)
    ensures Contained(s) && RecordOf(s) == r && NextOf(s) == next && EndOf(s) == NAME_OFFSET + 2 * |r.units|
  {
    UnitsRoundTrip(r.units);
  }

  lemma ParseLinked(c: Slot, more: Bytes)
    requires RealSlot(c) && SlotSize(c) % 8 == 0 && SlotSize(c) < 0x1_0000_0000 && more != []
    ensures Parse(SlotBytes(c, SlotSize(c)) + more)
         == if Usable(c.record) then Prepend([c.record], Parse(more)) else None
  {
    SlotReads(c, SlotSize(c), more);
    SlotFields(c, SlotSize(c), more);
  }

  ghost predicate AllUsable(rs: seq<Record>) { forall i :: 0 <= i < |rs| ==> Usable(rs[i]) }

  lemma AllUsableFirst(cs: seq<Slot>)
    requires cs != []
    ensures Records(cs) == [cs[0].record] + Records(cs[1..])
    ensures AllUsable(Records(cs)) <==> Usable(cs[0].record) && AllUsable(Records(cs[1..]))
  {
    var r, rs := cs[0].record, Records(cs[1..]);
    assert Records(cs) == [r] + rs;
    assert ([r] + rs)[0] == r && forall i :: 0 <= i < |rs| ==> ([r] + rs)[i + 1] == rs[i];
  }

  /** Parsing a well-laid-out serialization gives back exactly its records, whatever the unused fields
      and the filler are, unless one of them cannot be used. */
  lemma {:induction false} ParseSerialized(cs: seq<Slot>)
    requires WellFormed(cs)
    ensures Parse(Serialize(cs)) == if AllUsable(Records(cs)) then Some(Records(cs)) else None
    decreases |cs|
  {
    if |cs| == 1 {
      SlotReads(cs[0], 0, []);
      assert SlotBytes(cs[0], 0) + [] == SlotBytes(cs[0], 0);
      assert Records(cs) == [cs[0].record];
    } else {
      ParseSerialized(cs[1..]);
      ParseLinked(cs[0], Serialize(cs[1..]));
      AllUsableFirst(cs);
    }
  }

  /** Serializing records and listing the buffer gives the entries minus `.` and `..`; a name that is
      not UTF-16, or a zero identity on a real entry, refuses it. */
  method ListSerialized(cs: seq<Slot>) returns (r: Option<seq<Entry>>)
    requires WellFormed(cs)
    ensures r.Some? <==> forall i :: 0 <= i < |cs| ==>
      && ValidUtf16(cs[i].record.units)
      && (cs[i].record.units == [0x2E] || cs[i].record.units == [0x2E, 0x2E]
          || exists k :: 0 <= k < |cs[i].record.id| && cs[i].record.id[k] != 0)
    ensures r.Some? ==> Lists(Records(cs), r.value)
  {
    ParseSerialized(cs);
    ghost var extents;
    r, extents := ParseBuffer(Serialize(cs));
    UsableSlots(cs);
  }

  lemma UsableSlots(cs: seq<Slot>)
    requires forall i :: 0 <= i < |cs| ==> RealSlot(cs[i])
    ensures AllUsable(Records(cs)) <==> forall i :: 0 <= i < |cs| ==>
      && ValidUtf16(cs[i].record.units)
      && (cs[i].record.units == [0x2E] || cs[i].record.units == [0x2E, 0x2E]
          || exists k :: 0 <= k < |cs[i].record.id| && cs[i].record.id[k] != 0)
  {
    forall i | 0 <= i < |cs|
      ensures Usable(Records(cs)[i]) <==>
        && ValidUtf16(cs[i].record.units)
        && (cs[i].record.units == [0x2E] || cs[i].record.units == [0x2E, 0x2E]
            || exists k :: 0 <= k < |cs[i].record.id| && cs[i].record.id[k] != 0)
    {
    }
  }

  // ----- Names ---------------------------------------------------------------------------------------

  /** A character: any code point but a surrogate. */
  predicate IsScalar(c: nat) { c < 0xD800 || 0xE000 <= c < 0x11_0000 }

  function EncodeUtf16(cs: seq<nat>): seq<nat> {
    if cs == [] then []
    else
      var c := cs[0];
      (if c < 0x1_0000 then [c] else [0xD800 + (c - 0x1_0000) / 0x400, 0xDC00 + (c - 0x1_0000) % 0x400])
      + EncodeUtf16(cs[1..])
  }

  lemma {:induction false} EncodedIsValid(cs: seq<nat>)
    requires forall i :: 0 <= i < |cs| ==> IsScalar(cs[i])
    ensures ValidUtf16(EncodeUtf16(cs))
    decreases |cs|
  {
    if cs != [] {
      var c, rest := cs[0], EncodeUtf16(cs[1..]);
      EncodedIsValid(cs[1..]);
      if c < 0x1_0000 {
        assert EncodeUtf16(cs)[1..] == rest;
      } else {
        assert EncodeUtf16(cs)[2..] == rest;
      }
    }
  }

  lemma {:induction false} ValidIsEncoded(u: seq<nat>) returns (cs: seq<nat>)
    requires ValidUtf16(u) && forall i :: 0 <= i < |u| ==> u[i] < 0x1_0000
    ensures EncodeUtf16(cs) == u && forall i :: 0 <= i < |cs| ==> IsScalar(cs[i])
    decreases |u|
  {
    if u == [] {
      cs := [];
    } else if 0xD800 <= u[0] < 0xDC00 {
      var rest := ValidIsEncoded(u[2..]);
      var c := 0x1_0000 + (u[0] - 0xD800) * 0x400 + (u[1] - 0xDC00);
      cs := [c] + rest;
      assert cs[1..] == rest && u == [u[0], u[1]] + u[2..];
    } else {
      var rest := ValidIsEncoded(u[1..]);
      cs := [u[0]] + rest;
      assert cs[1..] == rest && u == [u[0]] + u[1..];
    }
  }

  /** The names taken are exactly the UTF-16 forms of sequences of characters. */
  lemma ValidExactlyWhenEncoded(u: seq<nat>)
    requires forall i :: 0 <= i < |u| ==> u[i] < 0x1_0000
    ensures ValidUtf16(u) <==>
      exists cs: seq<nat> :: EncodeUtf16(cs) == u && forall i :: 0 <= i < |cs| ==> IsScalar(cs[i])
  {
    if ValidUtf16(u) { var cs := ValidIsEncoded(u); }
    forall cs: seq<nat> | EncodeUtf16(cs) == u && forall i :: 0 <= i < |cs| ==> IsScalar(cs[i])
      ensures ValidUtf16(u)
    {
      EncodedIsValid(cs);
    }
  }
}
